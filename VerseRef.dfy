/** References as the tokenizer delivers them, and the range expander that
    turns one reference (plus, for a contextual one, a context span and a
    level) into a concrete span of one book. */
module VerseRef {
  import opened Types

  /** Granularity of the most recently resolved reference. */
  datatype ParserLevel = BookLevel | ChapterLevel | VerseLevel

  /** The suffix of a chapter or verse number: none, "f" (and the following
      unit) or "ff" (and all following units). */
  datatype Suffix = NoSuffix | Following | FollowingAll

  datatype Numbered = Numbered(n: int, opts: Suffix)

  /** A reference that names its book. */
  datatype AbsoluteRef =
    | ToBook(book: string)
    | ToBookChapter(book: string, chapter: Numbered)
    | ToBookChapterVerse(book: string, chapter: Numbered, verse: Numbered)

  /** A reference without a book, resolved against a context span. */
  datatype ContextualRef =
    | ChapterOrVerse(value: Numbered)
    | ChapterAndVerse(chapter: Numbered, verse: Numbered)

  datatype ScriptureRef = Absolute(abs: AbsoluteRef) | Contextual(rel: ContextualRef)

  datatype Operator = Comma | Semicolon | Dash

  datatype ScriptureToken = Op(op: Operator) | Ref(ref: ScriptureRef)

  /** The failures of expansion and of the grammar; the wording of the
      messages is not modelled. */
  datatype Error =
    | BookNotFound(book: string)
    | ChapterNotFound(chapter: int)
    | RelativeAtBookLevel
    | NoContext
    | NoScripture
    | MultipleOperators
    | DashWithoutContext
    | RangeStartsBeforeContext
    | RangeEndsAfterContext
    | BookRangeOutOfSequence

  datatype Result<T> = Ok(value: T) | Err(error: Error)

  datatype Expansion = Expansion(sbc: ScriptureBookChapter, level: ParserLevel)

  /** The level an absolute reference resolves at. */
  function LevelOf(ref: AbsoluteRef): ParserLevel
  {
    match ref
    case ToBook(_) => BookLevel
    case ToBookChapter(_, _) => ChapterLevel
    case ToBookChapterVerse(_, _, _) => VerseLevel
  }

  /** The span of a whole book: first chapter's first verse to last chapter's last verse. */
  function BookToSbc(book: BookInfo): ScriptureBookChapter
    requires |book.chapters| > 0
  {
    var cs := book.chapters[0];
    var ce := LastChapter(book);
    ScriptureBookChapter(book.name, cs.chapter, cs.verses.first, ce.chapter, ce.verses.last)
  }

  function ExpandAbsoluteRef(books: seq<BookInfo>, ref: AbsoluteRef): (r: Result<Expansion>)
    requires ChaptersPresent(books)
    ensures r.Ok? ==> r.value.sbc.book == ref.book && r.value.level == LevelOf(ref)
    ensures r.Ok? && !ref.ToBook? ==> r.value.sbc.chapterStart == ref.chapter.n
  {
    match FindBook(books, ref.book)
    case None => Err(BookNotFound(ref.book))
    case Some(book) =>
      FindBookFound(books, ref.book);
      var sbc := BookToSbc(book);
      match ref
      case ToBook(_) => Ok(Expansion(sbc, BookLevel))
      case ToBookChapter(_, chapter) =>
        if chapter.opts == FollowingAll then
          (match FindChapter(book, chapter.n)
           case None => Err(ChapterNotFound(chapter.n))
           case Some(c1) =>
             var c2 := LastChapter(book);
             Ok(Expansion(sbc.(chapterStart := c1.chapter, verseStart := c1.verses.first,
                               chapterEnd := c2.chapter, verseEnd := c2.verses.last), ChapterLevel)))
        else if chapter.opts == Following then
          var c1 := FindChapter(book, chapter.n);
          var c2 := FindChapter(book, chapter.n + 1);
          if c1.None? then Err(ChapterNotFound(chapter.n))
          else if c2.None? then Err(ChapterNotFound(chapter.n + 1))
          else
            Ok(Expansion(sbc.(chapterStart := c1.value.chapter, verseStart := c1.value.verses.first,
                              chapterEnd := c2.value.chapter, verseEnd := c2.value.verses.last), ChapterLevel))
        else
          (match FindChapter(book, chapter.n)
           case None => Err(ChapterNotFound(chapter.n))
           case Some(c) =>
             Ok(Expansion(sbc.(chapterStart := c.chapter, verseStart := c.verses.first,
                               chapterEnd := c.chapter, verseEnd := c.verses.last), ChapterLevel)))
      case ToBookChapterVerse(_, chapter, verse) =>
        match FindChapter(book, chapter.n)
        case None => Err(ChapterNotFound(chapter.n))
        case Some(c) =>
          var verseEnd :=
            if verse.opts == FollowingAll then c.verses.last
            else if verse.opts == Following then verse.n + 1
            else verse.n;
          Ok(Expansion(sbc.(chapterStart := c.chapter, chapterEnd := c.chapter,
                            verseStart := verse.n, verseEnd := verseEnd), VerseLevel))
  }

  /** An unknown book is an error, and a successful expansion names a
      book of the catalog. */
  lemma ExpandAbsoluteRefBook(books: seq<BookInfo>, ref: AbsoluteRef)
    requires ChaptersPresent(books)
    ensures (forall i | 0 <= i < |books| :: books[i].name != ref.book) ==>
              ExpandAbsoluteRef(books, ref) == Err(BookNotFound(ref.book))
    ensures ExpandAbsoluteRef(books, ref).Ok? ==> HasBook(books, ref.book)
  {
    FindBookFound(books, ref.book);
    if FindBook(books, ref.book).Some? {
      var b := FindBook(books, ref.book).value;
      var i :| 0 <= i < |books| && books[i] == b;
    }
  }

  /** A successful expansion, re-labelled with the given level. */
  function MergeLevel(ex: Result<Expansion>, level: ParserLevel): Result<Expansion>
  {
    if ex.Err? then ex else Ok(ex.value.(level := level))
  }

  function ExpandContextualRef(books: seq<BookInfo>, fromSbc: ScriptureBookChapter, atLevel: ParserLevel,
                               ref: ContextualRef): (r: Result<Expansion>)
    requires ChaptersPresent(books)
    ensures ref.ChapterOrVerse? && atLevel == BookLevel ==> r == Err(RelativeAtBookLevel)
    ensures r.Ok? ==> r.value.sbc.book == fromSbc.book
    ensures r.Ok? ==> r.value.level == if ref.ChapterOrVerse? then atLevel else VerseLevel
  {
    match ref
    case ChapterOrVerse(value) =>
      if atLevel == BookLevel then Err(RelativeAtBookLevel)
      else if atLevel == ChapterLevel then
        // a chapter of the context's book
        MergeLevel(ExpandAbsoluteRef(books, ToBookChapter(fromSbc.book, value)), atLevel)
      else
        // a verse of the context's last chapter
        MergeLevel(ExpandAbsoluteRef(books, ToBookChapterVerse(fromSbc.book, Numbered(fromSbc.chapterEnd, NoSuffix), value)),
                   atLevel)
    case ChapterAndVerse(chapter, verse) =>
      ExpandAbsoluteRef(books, ToBookChapterVerse(fromSbc.book, chapter, verse))
  }

  function ExpandRef(books: seq<BookInfo>, fromSbc: Option<ScriptureBookChapter>, atLevel: ParserLevel,
                     ref: ScriptureRef): (r: Result<Expansion>)
    requires ChaptersPresent(books)
    ensures ref.Contextual? && fromSbc.None? ==> r == Err(NoContext)
    ensures r.Ok? && ref.Absolute? ==> r.value.sbc.book == ref.abs.book
    ensures r.Ok? && ref.Contextual? ==> fromSbc.Some? && r.value.sbc.book == fromSbc.value.book
  {
    if ref.Absolute? then ExpandAbsoluteRef(books, ref.abs)
    else if fromSbc.None? then Err(NoContext)
    else ExpandContextualRef(books, fromSbc.value, atLevel, ref.rel)
  }

  /** A successful absolute reference names a book of the catalog. */
  lemma ExpandRefBook(books: seq<BookInfo>, fromSbc: Option<ScriptureBookChapter>, atLevel: ParserLevel,
                      ref: ScriptureRef)
    requires ChaptersPresent(books)
    ensures ExpandRef(books, fromSbc, atLevel, ref).Ok? && ref.Absolute? ==> HasBook(books, ref.abs.book)
  {
    if ref.Absolute? {
      ExpandAbsoluteRefBook(books, ref.abs);
    }
  }

  // ---------------------------------------------------------------------
  // What expansion yields, stated over the catalog's contents: book i of
  // the catalog, chapter k of that book.

  /** A book reference covers the whole book, at book level. */
  lemma ExpandWholeBook(books: seq<BookInfo>, i: nat)
    requires ValidCatalog(books) && i < |books|
    ensures var b := books[i];
            ExpandAbsoluteRef(books, ToBook(b.name)) ==
              Ok(Expansion(ScriptureBookChapter(b.name, b.chapters[0].chapter, b.chapters[0].verses.first,
                                                LastChapter(b).chapter, LastChapter(b).verses.last), BookLevel))
  {
    FindBookAt(books, i);
  }

  /** A chapter reference without suffix covers exactly that chapter. */
  lemma ExpandChapterPlain(books: seq<BookInfo>, i: nat, k: nat)
    requires ValidCatalog(books) && i < |books| && k < |books[i].chapters|
    ensures var b := books[i]; var c := b.chapters[k];
            ExpandAbsoluteRef(books, ToBookChapter(b.name, Numbered(c.chapter, NoSuffix))) ==
              Ok(Expansion(ScriptureBookChapter(b.name, c.chapter, c.verses.first, c.chapter, c.verses.last), ChapterLevel))
  {
    FindBookAt(books, i);
    FindChapterAt(books[i], k);
  }

  /** "ff" on a chapter runs to the book's last chapter and last verse. */
  lemma ExpandChapterFollowingAll(books: seq<BookInfo>, i: nat, k: nat)
    requires ValidCatalog(books) && i < |books| && k < |books[i].chapters|
    ensures var b := books[i]; var c := b.chapters[k];
            ExpandAbsoluteRef(books, ToBookChapter(b.name, Numbered(c.chapter, FollowingAll))) ==
              Ok(Expansion(ScriptureBookChapter(b.name, c.chapter, c.verses.first,
                                                LastChapter(b).chapter, LastChapter(b).verses.last), ChapterLevel))
  {
    FindBookAt(books, i);
    FindChapterAt(books[i], k);
  }

  /** "f" on chapter n runs to the last verse of chapter n+1 when that exists ... */
  lemma ExpandChapterFollowing(books: seq<BookInfo>, i: nat, k: nat, k2: nat)
    requires ValidCatalog(books) && i < |books| && k < |books[i].chapters| && k2 < |books[i].chapters|
    requires books[i].chapters[k2].chapter == books[i].chapters[k].chapter + 1
    ensures var b := books[i]; var c := b.chapters[k]; var c2 := b.chapters[k2];
            ExpandAbsoluteRef(books, ToBookChapter(b.name, Numbered(c.chapter, Following))) ==
              Ok(Expansion(ScriptureBookChapter(b.name, c.chapter, c.verses.first, c2.chapter, c2.verses.last), ChapterLevel))
  {
    FindBookAt(books, i);
    FindChapterAt(books[i], k);
    FindChapterAt(books[i], k2);
  }

  /** ... and fails, naming chapter n+1, when it does not. */
  lemma ExpandChapterFollowingMissing(books: seq<BookInfo>, i: nat, k: nat)
    requires ValidCatalog(books) && i < |books| && k < |books[i].chapters|
    requires forall q | 0 <= q < |books[i].chapters| :: books[i].chapters[q].chapter != books[i].chapters[k].chapter + 1
    ensures var b := books[i]; var c := b.chapters[k];
            ExpandAbsoluteRef(books, ToBookChapter(b.name, Numbered(c.chapter, Following))) == Err(ChapterNotFound(c.chapter + 1))
  {
    FindBookAt(books, i);
    FindChapterAt(books[i], k);
    FindChapterFound(books[i], books[i].chapters[k].chapter + 1);
  }

  /** A chapter the book does not have fails, whatever the suffixes. */
  lemma ExpandChapterMissing(books: seq<BookInfo>, i: nat, ref: AbsoluteRef)
    requires ValidCatalog(books) && i < |books|
    requires !ref.ToBook? && ref.book == books[i].name
    requires forall q | 0 <= q < |books[i].chapters| :: books[i].chapters[q].chapter != ref.chapter.n
    ensures ExpandAbsoluteRef(books, ref) == Err(ChapterNotFound(ref.chapter.n))
  {
    FindBookAt(books, i);
    FindChapterFound(books[i], ref.chapter.n);
  }

  /** Where a verse reference ends: the verse itself, the next verse (with no
      check against the chapter's bounds), or the chapter's last verse. */
  function VerseEnd(c: ChapterInfo, verse: Numbered): int
  {
    match verse.opts
    case NoSuffix => verse.n
    case Following => verse.n + 1
    case FollowingAll => c.verses.last
  }

  /** A verse reference stays inside its chapter, at verse level; the
      chapter's own suffix plays no part. */
  lemma ExpandVerse(books: seq<BookInfo>, i: nat, k: nat, chapterOpts: Suffix, verse: Numbered)
    requires ValidCatalog(books) && i < |books| && k < |books[i].chapters|
    ensures var b := books[i]; var c := b.chapters[k];
            ExpandAbsoluteRef(books, ToBookChapterVerse(b.name, Numbered(c.chapter, chapterOpts), verse)) ==
              Ok(Expansion(ScriptureBookChapter(b.name, c.chapter, verse.n, c.chapter, VerseEnd(c, verse)), VerseLevel))
  {
    FindBookAt(books, i);
    FindChapterAt(books[i], k);
  }

  /** At chapter level a bare number is a chapter of the context's book. */
  lemma BareNumberAtChapterLevel(books: seq<BookInfo>, ctx: ScriptureBookChapter, value: Numbered)
    requires ChaptersPresent(books)
    ensures ExpandRef(books, Some(ctx), ChapterLevel, Contextual(ChapterOrVerse(value))) ==
              ExpandAbsoluteRef(books, ToBookChapter(ctx.book, value))
  {
  }

  /** At verse level a bare number is a verse of the context's last chapter. */
  lemma BareNumberAtVerseLevel(books: seq<BookInfo>, ctx: ScriptureBookChapter, i: nat, k: nat, value: Numbered)
    requires ValidCatalog(books) && i < |books| && k < |books[i].chapters|
    requires ctx.book == books[i].name && books[i].chapters[k].chapter == ctx.chapterEnd
    ensures ExpandRef(books, Some(ctx), VerseLevel, Contextual(ChapterOrVerse(value))) ==
              Ok(Expansion(ScriptureBookChapter(ctx.book, ctx.chapterEnd, value.n, ctx.chapterEnd,
                                                VerseEnd(books[i].chapters[k], value)), VerseLevel))
  {
    ExpandVerse(books, i, k, NoSuffix, value);
  }

  /** A contextual chapter:verse reference is that chapter and verse of the
      context's book, at any level. */
  lemma ContextualChapterVerse(books: seq<BookInfo>, ctx: ScriptureBookChapter, atLevel: ParserLevel,
                               chapter: Numbered, verse: Numbered)
    requires ChaptersPresent(books)
    ensures ExpandRef(books, Some(ctx), atLevel, Contextual(ChapterAndVerse(chapter, verse))) ==
              ExpandAbsoluteRef(books, ToBookChapterVerse(ctx.book, chapter, verse))
  {
  }
}
