/** The behaviour of the model on a four-book catalog, for the scenarios the
    repository's tests describe. */
module Examples {
  import opened Types
  import opened VerseRef
  import opened VerseRefGrammar
  import opened BookAbbreviations
  import GrammarProperties

  function Chapter(n: int, last: int): ChapterInfo
  {
    ChapterInfo(n, VerseInfo(1, last))
  }

  const Matthew := BookInfo("New Testament", "Matthew", [Chapter(1, 25), Chapter(2, 23), Chapter(3, 17)])
  const Mark := BookInfo("New Testament", "Mark", [Chapter(1, 45), Chapter(2, 28)])
  const Luke := BookInfo("New Testament", "Luke", [Chapter(1, 80)])
  const John := BookInfo("New Testament", "John", [Chapter(1, 51)])

  const Gospels: seq<BookInfo> := [Matthew, Mark, Luke, John]

  function Num(n: int): Numbered
  {
    Numbered(n, NoSuffix)
  }

  function Span(book: string, cs: int, vs: int, ce: int, ve: int): ScriptureBookChapter
  {
    ScriptureBookChapter(book, cs, vs, ce, ve)
  }

  lemma GospelsValid()
    ensures ValidCatalog(Gospels)
  {
  }

  /** "Matthew 1:4;2": after a semicolon the bare number is a chapter. */
  lemma SemicolonExample()
    ensures Grammar(Gospels, [Ref(Absolute(ToBookChapterVerse("Matthew", Num(1), Num(4)))),
                             Op(Semicolon), Ref(Contextual(ChapterOrVerse(Num(2))))]) ==
              Ok([Span("Matthew", 1, 4, 1, 4), Span("Matthew", 2, 1, 2, 23)])
  {
    GospelsValid();
    var tokens := [Ref(Absolute(ToBookChapterVerse("Matthew", Num(1), Num(4)))),
                   Op(Semicolon), Ref(Contextual(ChapterOrVerse(Num(2))))];
    var v := Span("Matthew", 1, 4, 1, 4);
    ExpandVerse(Gospels, 0, 0, NoSuffix, Num(4));
    GrammarProperties.RunFirst(Gospels, tokens, Expansion(v, VerseLevel));
    var s1 := GrammarState(VerseLevel, Some(v), Some(v), None, []);
    GrammarProperties.RunNext(Gospels, tokens, 1, s1);
    var s2 := s1.(pendingOp := Some(Semicolon));
    GrammarProperties.RunNext(Gospels, tokens, 2, s2);
    GrammarProperties.SemicolonNumberIsChapter(Gospels, s2, v, 0, 1);
    var c := Span("Matthew", 2, 1, 2, 23);
    assert s2.sbcs + Flush(s2.pending) == [v];
    assert Step(Gospels, s2, tokens[2]) == Ok(GrammarState(ChapterLevel, Some(c), Some(c), None, [v]));
    GrammarProperties.GrammarDone(Gospels, tokens, GrammarState(ChapterLevel, Some(c), Some(c), None, [v]));
    assert [v] + Flush(Some(c)) == [v, c];
  }

  /** "Matthew 1:4,6": after a comma the bare number is a verse of the same chapter. */
  lemma CommaExample()
    ensures Grammar(Gospels, [Ref(Absolute(ToBookChapterVerse("Matthew", Num(1), Num(4)))),
                             Op(Comma), Ref(Contextual(ChapterOrVerse(Num(6))))]) ==
              Ok([Span("Matthew", 1, 4, 1, 4), Span("Matthew", 1, 6, 1, 6)])
  {
    GospelsValid();
    var tokens := [Ref(Absolute(ToBookChapterVerse("Matthew", Num(1), Num(4)))),
                   Op(Comma), Ref(Contextual(ChapterOrVerse(Num(6))))];
    var v := Span("Matthew", 1, 4, 1, 4);
    ExpandVerse(Gospels, 0, 0, NoSuffix, Num(4));
    GrammarProperties.RunFirst(Gospels, tokens, Expansion(v, VerseLevel));
    var s1 := GrammarState(VerseLevel, Some(v), Some(v), None, []);
    GrammarProperties.RunNext(Gospels, tokens, 1, s1);
    var s2 := s1.(pendingOp := Some(Comma));
    GrammarProperties.RunNext(Gospels, tokens, 2, s2);
    GrammarProperties.CommaNumberIsVerse(Gospels, s2, v, 0, 0, Num(6));
    var w := Span("Matthew", 1, 6, 1, 6);
    assert s2.sbcs + Flush(s2.pending) == [v];
    assert Step(Gospels, s2, tokens[2]) == Ok(GrammarState(VerseLevel, Some(w), Some(w), None, [v]));
    GrammarProperties.GrammarDone(Gospels, tokens, GrammarState(VerseLevel, Some(w), Some(w), None, [v]));
    assert [v] + Flush(Some(w)) == [v, w];
  }

  /** "Matthew 2:8-6" runs backwards inside one chapter and fails. */
  lemma BackwardsVerseRangeExample()
    ensures Grammar(Gospels, [Ref(Absolute(ToBookChapterVerse("Matthew", Num(2), Num(8)))),
                             Op(Dash), Ref(Contextual(ChapterOrVerse(Num(6))))]) ==
              Err(RangeEndsAfterContext)
  {
    GospelsValid();
    var tokens := [Ref(Absolute(ToBookChapterVerse("Matthew", Num(2), Num(8)))),
                   Op(Dash), Ref(Contextual(ChapterOrVerse(Num(6))))];
    var v := Span("Matthew", 2, 8, 2, 8);
    ExpandVerse(Gospels, 0, 1, NoSuffix, Num(8));
    GrammarProperties.RunFirst(Gospels, tokens, Expansion(v, VerseLevel));
    var s1 := GrammarState(VerseLevel, Some(v), Some(v), None, []);
    GrammarProperties.RunNext(Gospels, tokens, 1, s1);
    var s2 := s1.(pendingOp := Some(Dash));
    GrammarProperties.RunNext(Gospels, tokens, 2, s2);
    BareNumberAtVerseLevel(Gospels, v, 0, 1, Num(6));
    var r := tokens[2].ref;
    GrammarProperties.SameBookRange(Gospels, s2, r, Expansion(Span("Matthew", 2, 6, 2, 6), VerseLevel));
    GrammarFails(Gospels, tokens, 3);
  }

  /** "Matthew 2:4ff-3:9": from a verse to the end of its chapter, extended
      to a verse of the next chapter. */
  lemma ChapterCrossingExample()
    ensures Grammar(Gospels, [Ref(Absolute(ToBookChapterVerse("Matthew", Num(2), Numbered(4, FollowingAll)))),
                             Op(Dash), Ref(Contextual(ChapterAndVerse(Num(3), Num(9))))]) ==
              Ok([Span("Matthew", 2, 4, 3, 9)])
  {
    GospelsValid();
    var tokens := [Ref(Absolute(ToBookChapterVerse("Matthew", Num(2), Numbered(4, FollowingAll)))),
                   Op(Dash), Ref(Contextual(ChapterAndVerse(Num(3), Num(9))))];
    var v := Span("Matthew", 2, 4, 2, 23);
    ExpandVerse(Gospels, 0, 1, NoSuffix, Numbered(4, FollowingAll));
    GrammarProperties.RunFirst(Gospels, tokens, Expansion(v, VerseLevel));
    var s1 := GrammarState(VerseLevel, Some(v), Some(v), None, []);
    GrammarProperties.RunNext(Gospels, tokens, 1, s1);
    var s2 := s1.(pendingOp := Some(Dash));
    GrammarProperties.RunNext(Gospels, tokens, 2, s2);
    var r := tokens[2].ref;
    ContextualChapterVerse(Gospels, v, VerseLevel, Num(3), Num(9));
    ExpandVerse(Gospels, 0, 2, NoSuffix, Num(9));
    var ex := Expansion(Span("Matthew", 3, 9, 3, 9), VerseLevel);
    GrammarProperties.SameBookRange(Gospels, s2, r, ex);
    var m := Span("Matthew", 2, 4, 3, 9);
    var s3 := Step(Gospels, s2, tokens[2]).value;
    assert s3.context == Some(m) && s3.sbcs == [m];
    assert s3 == GrammarState(VerseLevel, None, Some(m), None, [m]);
    GrammarProperties.GrammarDone(Gospels, tokens, GrammarState(VerseLevel, None, Some(m), None, [m]));
    assert [m] + Flush(None) == [m];
  }

  /** The tokens of "A - B" for two books of the catalog. */
  function BookDash(a: string, b: string): seq<ScriptureToken>
  {
    [Ref(Absolute(ToBook(a))), Op(Dash), Ref(Absolute(ToBook(b)))]
  }

  /** Before the last token of "A - B" the first book is pending under a dash. */
  lemma BookDashRun(i: nat, j: nat)
    requires i < |Gospels| && j < |Gospels|
    ensures var sbc := BookToSbc(Gospels[i]);
            Run(Gospels, BookDash(Gospels[i].name, Gospels[j].name), 2) ==
              Ok(GrammarState(BookLevel, Some(sbc), Some(sbc), Some(Dash), []))
  {
    GospelsValid();
    var tokens := BookDash(Gospels[i].name, Gospels[j].name);
    var sbc := BookToSbc(Gospels[i]);
    ExpandWholeBook(Gospels, i);
    GrammarProperties.RunFirst(Gospels, tokens, Expansion(sbc, BookLevel));
    GrammarProperties.RunNext(Gospels, tokens, 1, GrammarState(BookLevel, Some(sbc), Some(sbc), None, []));
  }

  /** The dash step of "Matthew - Luke". */
  lemma MatthewToLukeStep()
    ensures Step(Gospels, GrammarState(BookLevel, Some(BookToSbc(Matthew)), Some(BookToSbc(Matthew)), Some(Dash), []),
                 Ref(Absolute(ToBook("Luke")))) ==
              Ok(GrammarState(BookLevel, None, Some(BookToSbc(Luke)), None,
                              [BookToSbc(Matthew), BookToSbc(Mark), BookToSbc(Luke)]))
  {
    GospelsValid();
    var mt := BookToSbc(Matthew);
    var lk := BookToSbc(Luke);
    var s2 := GrammarState(BookLevel, Some(mt), Some(mt), Some(Dash), []);
    ExpandWholeBook(Gospels, 2);
    GrammarProperties.CrossBookStep(Gospels, s2, Absolute(ToBook("Luke")), Expansion(lk, BookLevel), 0, 2);
    assert Gospels[1..2] == [Mark];
    assert WholeBookSpans([Mark]) == [BookToSbc(Mark)];
    assert mt.(chapterEnd := LastChapter(Matthew).chapter, verseEnd := LastChapter(Matthew).verses.last) == mt;
    assert lk.(chapterStart := Luke.chapters[0].chapter, verseStart := Luke.chapters[0].verses.first) == lk;
    assert [] + ([mt] + [BookToSbc(Mark)] + [lk]) == [mt, BookToSbc(Mark), lk];
  }

  /** "Matthew - Luke": the first book, every book between, and the last. */
  lemma BookRangeExample()
    ensures Grammar(Gospels, BookDash("Matthew", "Luke")) ==
              Ok([Span("Matthew", 1, 1, 3, 17), Span("Mark", 1, 1, 2, 28), Span("Luke", 1, 1, 1, 80)])
  {
    GospelsValid();
    var tokens := BookDash("Matthew", "Luke");
    var mt := BookToSbc(Matthew);
    var lk := BookToSbc(Luke);
    BookDashRun(0, 2);
    var s2 := GrammarState(BookLevel, Some(mt), Some(mt), Some(Dash), []);
    GrammarProperties.RunNext(Gospels, tokens, 2, s2);
    MatthewToLukeStep();
    var spans := [mt, BookToSbc(Mark), lk];
    GrammarProperties.GrammarDone(Gospels, tokens, GrammarState(BookLevel, None, Some(lk), None, spans));
    assert spans + Flush(None) == spans;
  }

  /** "Mark - Matthew" runs backwards and the corrected guard refuses it. */
  lemma ReversedBookRangeExample()
    ensures Grammar(Gospels, BookDash("Mark", "Matthew")) == Err(BookRangeOutOfSequence)
  {
    GospelsValid();
    var tokens := BookDash("Mark", "Matthew");
    var mk := Span("Mark", 1, 1, 2, 28);
    var mt := Span("Matthew", 1, 1, 3, 17);
    BookDashRun(1, 0);
    var s2 := GrammarState(BookLevel, Some(mk), Some(mk), Some(Dash), []);
    GrammarProperties.RunNext(Gospels, tokens, 2, s2);
    ExpandWholeBook(Gospels, 0);
    GrammarProperties.CrossBookStep(Gospels, s2, tokens[2].ref, Expansion(mt, BookLevel), 1, 0);
    GrammarFails(Gospels, tokens, 3);
  }

  /** The guard as written accepts "Mark - Matthew": the range runs on to the
      end of the catalog, Luke appears although the reference never named it,
      and the last span sits where John begins but carries Matthew's name. */
  lemma ReversedBookRangeAsWrittenExample()
    ensures CrossBookMergeAsWritten(Gospels, Span("Mark", 1, 1, 2, 28), Span("Matthew", 1, 1, 3, 17)) ==
              Ok([Span("Mark", 1, 1, 2, 28), Span("Luke", 1, 1, 1, 80), Span("Matthew", 1, 1, 3, 17)])
  {
    GospelsValid();
    var mk := Span("Mark", 1, 1, 2, 28);
    var mt := Span("Matthew", 1, 1, 3, 17);
    BookRangeToEnd(Gospels, 1, "Matthew");
    var range := Gospels[1..];
    assert range == [Mark, Luke, John];
    assert range[1..|range| - 1] == [Luke];
    GrammarProperties.MiddleSpansWholeBooks(Gospels, [Luke]);
    assert WholeBookSpans([Luke]) == [Span("Luke", 1, 1, 1, 80)];
    assert CrossBookSpans(Gospels, range, mk, mt) ==
             Ok([mk] + [Span("Luke", 1, 1, 1, 80)] + [mt]);
    assert BookRangeOf(Gospels, mk.book, mt.book) == range;
    assert [mk] + [Span("Luke", 1, 1, 1, 80)] + [mt] == [mk, Span("Luke", 1, 1, 1, 80), mt];
  }

  /** "Matthew 1,;2": two operators in a row fail. */
  lemma TwoOperatorsExample()
    ensures Grammar(Gospels, [Ref(Absolute(ToBookChapter("Matthew", Num(1)))), Op(Comma), Op(Semicolon),
                             Ref(Contextual(ChapterOrVerse(Num(2))))]) ==
              Err(MultipleOperators)
  {
    GospelsValid();
    var tokens := [Ref(Absolute(ToBookChapter("Matthew", Num(1)))), Op(Comma), Op(Semicolon),
                   Ref(Contextual(ChapterOrVerse(Num(2))))];
    ExpandChapterPlain(Gospels, 0, 0);
    GrammarProperties.RunFirst(Gospels, tokens, Expansion(Span("Matthew", 1, 1, 1, 25), ChapterLevel));
    GrammarProperties.ConsecutiveOperatorsFail(Gospels, tokens, 1);
  }

  // ---------------------------------------------------------------------
  // Abbreviations.

  /** Neither name holds a space, so each is its own stripped form. */
  lemma GospelNamesStripped()
    ensures Stripped("Matthew") == "Matthew" && Stripped("Mark") == "Mark"
  {
    StrippedSpaces("Matthew");
    StrippedSpaces("Mark");
    assert forall i | 0 <= i < |"Matthew"| :: "Matthew"[i] != ' ';
    assert forall i | 0 <= i < |"Mark"| :: "Mark"[i] != ' ';
  }

  /** Matthew and Mark each have one curated alias. */
  lemma GospelAliases()
    ensures Aliases("Matthew") == {"Mt"} && Aliases("Mark") == {"Mk"}
  {
    AliasesInRow(ExtraAbbreviations, "Matthew", |ExtraAbbreviations|, 9);
    AliasesInRow(ExtraAbbreviations, "Mark", |ExtraAbbreviations|, 10);
    assert ["Mt"][0] == "Mt" && ["Mk"][0] == "Mk";
    assert Elements(["Mt"]) == {"Mt"};
    assert Elements(["Mk"]) == {"Mk"};
  }

  /** "Mat" is a candidate of Matthew only, and is neither a name nor an alias. */
  lemma MatCandidate()
    ensures "Mat" in Candidates("Matthew") && "Mat" !in Candidates("Mark")
    ensures "Mat" !in BaseEntry("Matthew") && "Mat" !in Aliases("Matthew")
  {
    GospelNamesStripped();
    GospelAliases();
    assert "Matthew"[..3] == "Mat" && "Mark"[..3] == "Mar";
    assert "Mat"[0] == 'M' && !IsDigit('M') && "Mat"[2] == 't';
    assert Kept("Mat");
    CandidatesIff("Matthew", "Mat");
    CandidatesIff("Mark", "Mat");
  }

  /** "Ma" is a candidate of both books, and a name or alias of neither. */
  lemma MaCandidate()
    ensures "Ma" in Candidates("Matthew") && "Ma" in Candidates("Mark")
    ensures "Ma" !in BaseEntry("Matthew") && "Ma" !in Aliases("Matthew")
    ensures "Ma" !in BaseEntry("Mark") && "Ma" !in Aliases("Mark")
  {
    GospelNamesStripped();
    GospelAliases();
    assert "Matthew"[..2] == "Ma" == "Mark"[..2];
    assert "Ma"[0] == 'M' && !IsDigit('M') && "Ma"[1] == 'a';
    assert Kept("Ma");
    CandidatesIff("Matthew", "Ma");
    CandidatesIff("Mark", "Ma");
  }

  /** "M" is a candidate of Mark, and a name or alias of Matthew it is not. */
  lemma MCandidate()
    ensures "M" in Candidates("Mark")
    ensures "M" !in BaseEntry("Matthew") && "M" !in Aliases("Matthew")
  {
    GospelNamesStripped();
    GospelAliases();
    assert "Mark"[..1] == "M";
    assert "M"[0] == 'M' && !IsDigit('M');
    assert Kept("M");
    CandidatesIff("Mark", "M");
  }

  /** The two-book catalog of the example below. */
  predicate MatthewAndMark(books: seq<BookInfo>)
  {
    |books| == 2 && books[0].name == "Matthew" && books[1].name == "Mark"
  }

  /** In a catalog of Matthew and Mark, both books have an entry; "Mat",
      which only Matthew yields, names Matthew, while "Ma" and "M" are
      yielded by both books and name neither. */
  lemma AmbiguousPrefixExample(books: seq<BookInfo>)
    requires MatthewAndMark(books)
    ensures "Matthew" in AbbreviationIndex(books) && "Mark" in AbbreviationIndex(books)
    ensures "Mat" in AbbreviationIndex(books)["Matthew"]
    ensures "Ma" !in AbbreviationIndex(books)["Matthew"]
    ensures "Ma" !in AbbreviationIndex(books)["Mark"]
    ensures "M" !in AbbreviationIndex(books)["Matthew"]
  {
    MatInMatthew(books);
    MaInNeither(books);
    MNotInMatthew(books);
  }

  lemma MatInMatthew(books: seq<BookInfo>)
    requires MatthewAndMark(books)
    ensures "Matthew" in AbbreviationIndex(books) && "Mat" in AbbreviationIndex(books)["Matthew"]
  {
    MatCandidate();
    UniqueInEntry(books, 0, "Mat");
  }

  lemma MaInNeither(books: seq<BookInfo>)
    requires MatthewAndMark(books)
    ensures "Matthew" in AbbreviationIndex(books) && "Ma" !in AbbreviationIndex(books)["Matthew"]
    ensures "Mark" in AbbreviationIndex(books) && "Ma" !in AbbreviationIndex(books)["Mark"]
  {
    MaCandidate();
    SharedNotInEntry(books, 0, "Ma");
    SharedNotInEntry(books, 1, "Ma");
  }

  lemma MNotInMatthew(books: seq<BookInfo>)
    requires MatthewAndMark(books)
    ensures "Matthew" in AbbreviationIndex(books) && "M" !in AbbreviationIndex(books)["Matthew"]
  {
    MCandidate();
    SharedNotInEntry(books, 0, "M");
  }

  /** In a catalog of two books, a string that is not fixed in an entry
      is in it when only that book yields it ... */
  lemma UniqueInEntry(books: seq<BookInfo>, j: nat, a: string)
    requires |books| == 2 && j < 2
    requires a !in BaseEntry(books[j].name) && a !in Aliases(books[j].name)
    requires a in Candidates(books[j].name) && a !in Candidates(books[1 - j].name)
    ensures books[j].name in AbbreviationIndex(books) && a in AbbreviationIndex(books)[books[j].name]
  {
    forall q | 0 <= q < |books| && q != j
      ensures books[q] == books[1 - j]
    {
    }
    EntryContents(books, j, a);
  }

  /** ... and is not in it when the other book yields it too. */
  lemma SharedNotInEntry(books: seq<BookInfo>, j: nat, a: string)
    requires |books| == 2 && j < 2
    requires a !in BaseEntry(books[j].name) && a !in Aliases(books[j].name)
    requires a in Candidates(books[1 - j].name)
    ensures books[j].name in AbbreviationIndex(books) && a !in AbbreviationIndex(books)[books[j].name]
  {
    EntryContents(books, j, a);
  }

  /** For a numbered book the bare number and the number with its space are
      dropped by the two filters, while the number with a letter is kept,
      from the name and from the stripped name. */
  lemma NumberedBookCandidates()
    ensures "1" !in Candidates("1 John") && "1 " !in Candidates("1 John")
    ensures "1 J" in Candidates("1 John") && "1J" in Candidates("1 John")
  {
    assert Stripped("1 John") == "1John" by {
      assert "1 John"[..5] == "1 Joh" && "1 Joh"[..4] == "1 Jo" && "1 Jo"[..3] == "1 J";
      assert "1 J"[..2] == "1 " && "1 "[..1] == "1" && "1"[..0] == "";
    }
    assert "1 John"[..3] == "1 J" && "1John"[..2] == "1J";
    assert AllDigits("1") && EndsWithSpace("1 ");
    assert "1 J"[2] == 'J' && "1J"[1] == 'J' && !IsDigit('J');
    assert Kept("1 J") && Kept("1J");
    CandidatesIff("1 John", "1");
    CandidatesIff("1 John", "1 ");
    CandidatesIff("1 John", "1 J");
    CandidatesIff("1 John", "1J");
  }
}
