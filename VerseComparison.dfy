/** Ordering of (chapter, verse) positions and the projections of a span onto
    its start and end position. */
module VerseComparison {
  import opened Types

  /** BEFORE, EQUAL and AFTER, whose numeric values are -1, 0 and 1. */
  datatype CompareResult = Before | Equal | After {
    function Value(): (v: int)
      ensures -1 <= v <= 1
    {
      match this
      case Before => -1
      case Equal => 0
      case After => 1
    }
  }

  datatype ChapterVerse = ChapterVerse(chapter: int, verse: int)

  function ChapterVerseCompare(a: ChapterVerse, b: ChapterVerse): (r: CompareResult)
    ensures r == Before <==> LexBefore(a, b)
    ensures r == After <==> LexBefore(b, a)
  {
    if a.chapter < b.chapter then Before
    else if a.chapter > b.chapter then After
    else if a.verse < b.verse then Before
    else if a.verse > b.verse then After
    else Equal
  }

  function ChapterVerseStart(sbc: ScriptureBookChapter): (cv: ChapterVerse)
    ensures cv.chapter == sbc.chapterStart && cv.verse == sbc.verseStart
  {
    ChapterVerse(sbc.chapterStart, sbc.verseStart)
  }

  function ChapterVerseEnd(sbc: ScriptureBookChapter): (cv: ChapterVerse)
    ensures cv.chapter == sbc.chapterEnd && cv.verse == sbc.verseEnd
  {
    ChapterVerse(sbc.chapterEnd, sbc.verseEnd)
  }

  /** Lexicographic on (chapter, verse) positions, as the usual order on pairs. */
  predicate LexBefore(a: ChapterVerse, b: ChapterVerse)
  {
    a.chapter < b.chapter || (a.chapter == b.chapter && a.verse < b.verse)
  }

  /** The comparator agrees with the lexicographic order: the chapter decides,
      the verse only breaks a tie between equal chapters. */
  lemma CompareIsLexicographic(a: ChapterVerse, b: ChapterVerse)
    ensures ChapterVerseCompare(a, b) == Before <==> LexBefore(a, b)
    ensures ChapterVerseCompare(a, b) == After <==> LexBefore(b, a)
    ensures a.chapter != b.chapter ==>
              ChapterVerseCompare(a, b) == (if a.chapter < b.chapter then Before else After)
  {
  }

  /** EQUAL exactly when chapter and verse both agree. */
  lemma CompareEqualIff(a: ChapterVerse, b: ChapterVerse)
    ensures ChapterVerseCompare(a, b) == Equal <==> a == b
  {
  }

  /** Swapping the arguments negates the result. */
  lemma CompareAntisymmetric(a: ChapterVerse, b: ChapterVerse)
    ensures ChapterVerseCompare(a, b).Value() == -ChapterVerseCompare(b, a).Value()
  {
  }

  /** The comparator is transitive, for strict and for non-strict order. */
  lemma CompareTransitive(a: ChapterVerse, b: ChapterVerse, c: ChapterVerse)
    ensures ChapterVerseCompare(a, b) == Before && ChapterVerseCompare(b, c) == Before ==>
              ChapterVerseCompare(a, c) == Before
    ensures ChapterVerseCompare(a, b) != After && ChapterVerseCompare(b, c) != After ==>
              ChapterVerseCompare(a, c) != After
  {
  }

  /** A span is a single verse exactly when its start and end positions compare EQUAL. */
  lemma SingleVerseSpan(sbc: ScriptureBookChapter)
    ensures ChapterVerseCompare(ChapterVerseStart(sbc), ChapterVerseEnd(sbc)) == Equal <==>
              sbc.chapterStart == sbc.chapterEnd && sbc.verseStart == sbc.verseEnd
  {
  }
}
