/** What the grammar guarantees, stated over the fold of the token list:
    the bookkeeping it keeps between tokens, how the operators behave, what a
    range yields, and which inputs it refuses. */
module GrammarProperties {
  import opened Types
  import opened VerseRef
  import opened VerseRefGrammar
  import VC = VerseComparison

  // ---------------------------------------------------------------------
  // Cross-book ranges, by catalog position.

  /** A book reference to a catalog book expands to that whole book. */
  lemma WholeBookExpansion(books: seq<BookInfo>, b: BookInfo)
    requires ValidCatalog(books) && b in books
    ensures ExpandAbsoluteRef(books, ToBook(b.name)) == Ok(Expansion(BookToSbc(b), BookLevel))
  {
    var i :| 0 <= i < |books| && books[i] == b;
    FindBookAt(books, i);
  }

  /** The books inside a range are catalog books, so each expands to the
      whole book and the inner loop never fails. */
  lemma {:induction false} MiddleSpansWholeBooks(books: seq<BookInfo>, middle: seq<BookInfo>)
    requires ValidCatalog(books)
    requires forall q | 0 <= q < |middle| :: middle[q] in books
    ensures MiddleSpans(books, middle) == Ok(WholeBookSpans(middle))
  {
    if |middle| > 0 {
      var init := middle[..|middle| - 1];
      assert forall q | 0 <= q < |init| :: init[q] == middle[q];
      MiddleSpansWholeBooks(books, init);
      WholeBookExpansion(books, middle[|middle| - 1]);
    }
  }

  /** A range from book i to book j of the catalog: backwards or onto itself
      it fails; forwards it is the rest of book i from the pending start,
      every book strictly between whole, and book j up to the expanded end. */
  lemma CrossBookMergeByIndex(books: seq<BookInfo>, i: nat, j: nat, p: ScriptureBookChapter, ex: ScriptureBookChapter)
    requires ValidCatalog(books) && i < |books| && j < |books|
    requires p.book == books[i].name && ex.book == books[j].name
    ensures j <= i ==> CrossBookMerge(books, p, ex) == Err(BookRangeOutOfSequence)
    ensures i < j ==>
              CrossBookMerge(books, p, ex) ==
                Ok([p.(chapterEnd := LastChapter(books[i]).chapter, verseEnd := LastChapter(books[i]).verses.last)]
                   + WholeBookSpans(books[i + 1..j])
                   + [ex.(chapterStart := books[j].chapters[0].chapter, verseStart := books[j].chapters[0].verses.first)])
  {
    if i < j {
      BookRangeSlice(books, i, j);
      var range := books[i..j + 1];
      var middle := range[1..|range| - 1];
      assert forall q | 0 <= q < |middle| :: middle[q] == books[i + 1 + q];
      assert middle == books[i + 1..j];
      MiddleSpansWholeBooks(books, books[i + 1..j]);
    } else if j < i {
      BookRangeToEnd(books, i, books[j].name);
    } else {
      BookRangeSlice(books, i, i);
    }
  }

  // ---------------------------------------------------------------------
  // Bookkeeping the grammar keeps between tokens.

  /** There is always a context; a pending span is the context; without a
      pending span the context is the span emitted last; and every span
      names a catalog book. */
  predicate Coherent(books: seq<BookInfo>, s: GrammarState)
  {
    && s.context.Some?
    && HasBook(books, s.context.value.book)
    && (s.pending.Some? ==> s.context == s.pending)
    && (s.pending.None? ==> |s.sbcs| > 0 && s.sbcs[|s.sbcs| - 1] == s.context.value)
    && (forall q | 0 <= q < |s.sbcs| :: HasBook(books, s.sbcs[q].book))
  }

  /** One transition only appends to the output. */
  lemma StepExtends(books: seq<BookInfo>, s: GrammarState, t: ScriptureToken)
    requires ValidCatalog(books) && Step(books, s, t).Ok?
    ensures s.sbcs <= Step(books, s, t).value.sbcs
  {
  }

  /** A reference emitted on its own keeps the bookkeeping. */
  lemma CoherentAfterSeparate(books: seq<BookInfo>, s: GrammarState, ex: Expansion)
    requires Coherent(books, s) && HasBook(books, ex.sbc.book)
    ensures Coherent(books, GrammarState(ex.level, Some(ex.sbc), Some(ex.sbc), None, s.sbcs + Flush(s.pending)))
  {
    var out := s.sbcs + Flush(s.pending);
    assert forall q | |s.sbcs| <= q < |out| :: out[q] == s.pending.value;
  }

  /** Closing a range with the spans it emits keeps the bookkeeping. */
  lemma CoherentAfterRange(books: seq<BookInfo>, s: GrammarState, spans: seq<ScriptureBookChapter>, level: ParserLevel)
    requires Coherent(books, s) && |spans| > 0
    requires forall q | 0 <= q < |spans| :: HasBook(books, spans[q].book)
    ensures Coherent(books, GrammarState(level, None, Some(spans[|spans| - 1]), None, s.sbcs + spans))
  {
    var out := s.sbcs + spans;
    assert forall q | |s.sbcs| <= q < |out| :: out[q] == spans[q - |s.sbcs|];
  }

  /** The books strictly between books i and j, whole, name catalog books. */
  lemma MiddleSpansNameBooks(books: seq<BookInfo>, i: nat, j: nat)
    requires ValidCatalog(books) && i < j < |books|
    ensures forall q | i + 1 <= q < j :: WholeBookSpans(books[i + 1..j])[q - i - 1].book == books[q].name
  {
    var mid := books[i + 1..j];
    assert forall q | i + 1 <= q < j :: mid[q - i - 1] == books[q];
    WholeBookSpansAt(mid);
  }

  /** A head span of book i, the books between whole, and a tail span of
      book j all name catalog books. */
  lemma RangeSpansNameBooks(books: seq<BookInfo>, i: nat, j: nat, head: ScriptureBookChapter, tail: ScriptureBookChapter)
    requires ValidCatalog(books) && i < j < |books|
    requires head.book == books[i].name && tail.book == books[j].name
    ensures var spans := [head] + WholeBookSpans(books[i + 1..j]) + [tail];
            forall q | 0 <= q < |spans| :: HasBook(books, spans[q].book)
  {
    var middle := WholeBookSpans(books[i + 1..j]);
    var spans := [head] + middle + [tail];
    MiddleSpansNameBooks(books, i, j);
    forall q | 0 <= q < |spans|
      ensures HasBook(books, spans[q].book)
    {
      if q == 0 {
        assert spans[q] == head;
      } else if q == |spans| - 1 {
        assert spans[q] == tail;
      } else {
        assert spans[q] == middle[q - 1];
        assert spans[q].book == books[i + q].name;
      }
    }
  }

  /** Every span of an accepted cross-book range names a catalog book. */
  lemma CrossBookMergeBooks(books: seq<BookInfo>, p: ScriptureBookChapter, ex: ScriptureBookChapter)
    requires ValidCatalog(books) && HasBook(books, p.book) && HasBook(books, ex.book)
    requires CrossBookMerge(books, p, ex).Ok?
    ensures forall q | 0 <= q < |CrossBookMerge(books, p, ex).value| :: HasBook(books, CrossBookMerge(books, p, ex).value[q].book)
  {
    var i :| 0 <= i < |books| && books[i].name == p.book;
    var j :| 0 <= j < |books| && books[j].name == ex.book;
    CrossBookMergeByIndex(books, i, j, p, ex);
    var head := p.(chapterEnd := LastChapter(books[i]).chapter, verseEnd := LastChapter(books[i]).verses.last);
    var tail := ex.(chapterStart := books[j].chapters[0].chapter, verseStart := books[j].chapters[0].verses.first);
    RangeSpansNameBooks(books, i, j, head, tail);
  }

  /** One transition keeps the bookkeeping. */
  lemma StepCoherent(books: seq<BookInfo>, s: GrammarState, t: ScriptureToken)
    requires ValidCatalog(books) && Coherent(books, s)
    requires Step(books, s, t).Ok?
    ensures Coherent(books, Step(books, s, t).value)
  {
    if t.Ref? {
      var ex := ExpandRef(books, s.context, LevelFor(s), t.ref).value;
      ExpandRefBook(books, s.context, LevelFor(s), t.ref);
      assert HasBook(books, ex.sbc.book);
      if s.pendingOp != Some(Dash) {
        CoherentAfterSeparate(books, s, ex);
      } else {
        var p := s.pending.value;
        if p.book == ex.sbc.book {
          var merged := p.(chapterEnd := ex.sbc.chapterEnd, verseEnd := ex.sbc.verseEnd);
          CoherentAfterRange(books, s, [merged], ex.level);
        } else {
          CrossBookMergeBooks(books, p, ex.sbc);
          CoherentAfterRange(books, s, CrossBookMerge(books, p, ex.sbc).value, ex.level);
        }
      }
    }
  }

  /** The state after the first reference is coherent. */
  lemma {:induction false} RunCoherent(books: seq<BookInfo>, tokens: seq<ScriptureToken>, k: nat)
    requires ValidCatalog(books) && StartsWithAbsolute(tokens)
    requires 1 <= k <= |tokens| && Run(books, tokens, k).Ok?
    ensures Coherent(books, Run(books, tokens, k).value)
  {
    if k == 1 {
      ExpandAbsoluteRefBook(books, tokens[0].ref.abs);
    } else {
      RunStep(books, tokens, k);
      var prev := Run(books, tokens, k - 1).value;
      RunCoherent(books, tokens, k - 1);
      StepCoherent(books, prev, tokens[k - 1]);
    }
  }

  /** The fold, one token at a time: the first reference, every further
      token, and the final flush of the pending span. */
  lemma RunFirst(books: seq<BookInfo>, tokens: seq<ScriptureToken>, ex: Expansion)
    requires ValidCatalog(books) && StartsWithAbsolute(tokens) && |tokens| > 0
    requires ExpandAbsoluteRef(books, tokens[0].ref.abs) == Ok(ex)
    ensures Run(books, tokens, 1) == Ok(GrammarState(ex.level, Some(ex.sbc), Some(ex.sbc), None, []))
  {
  }

  lemma RunNext(books: seq<BookInfo>, tokens: seq<ScriptureToken>, k: nat, s: GrammarState)
    requires ValidCatalog(books) && StartsWithAbsolute(tokens)
    requires 1 <= k < |tokens| && Run(books, tokens, k) == Ok(s)
    ensures Run(books, tokens, k + 1) == Step(books, s, tokens[k])
  {
  }

  lemma GrammarDone(books: seq<BookInfo>, tokens: seq<ScriptureToken>, s: GrammarState)
    requires ValidCatalog(books) && StartsWithAbsolute(tokens) && |tokens| > 0
    requires Run(books, tokens, |tokens|) == Ok(s)
    ensures Grammar(books, tokens) == Ok(s.sbcs + Flush(s.pending))
  {
  }

  /** A successful run got there by one successful transition. */
  lemma RunStep(books: seq<BookInfo>, tokens: seq<ScriptureToken>, n: nat)
    requires ValidCatalog(books) && StartsWithAbsolute(tokens)
    requires 2 <= n <= |tokens| && Run(books, tokens, n).Ok?
    ensures Run(books, tokens, n - 1).Ok?
    ensures Run(books, tokens, n) == Step(books, Run(books, tokens, n - 1).value, tokens[n - 1])
  {
  }

  /** One more token only appends to the output. */
  lemma RunExtendsOne(books: seq<BookInfo>, tokens: seq<ScriptureToken>, n: nat)
    requires ValidCatalog(books) && StartsWithAbsolute(tokens)
    requires 2 <= n <= |tokens| && Run(books, tokens, n).Ok?
    ensures Run(books, tokens, n - 1).Ok?
    ensures Run(books, tokens, n - 1).value.sbcs <= Run(books, tokens, n).value.sbcs
  {
    RunStep(books, tokens, n);
    StepExtends(books, Run(books, tokens, n - 1).value, tokens[n - 1]);
  }

  lemma PrefixTransitive(a: seq<ScriptureBookChapter>, b: seq<ScriptureBookChapter>, c: seq<ScriptureBookChapter>)
    requires a <= b && b <= c
    ensures a <= c
  {
    assert forall q | 0 <= q < |a| :: a[q] == b[q] == c[q];
  }

  /** Spans once emitted are never taken back. */
  lemma {:induction false} RunExtends(books: seq<BookInfo>, tokens: seq<ScriptureToken>, k: nat, n: nat)
    requires ValidCatalog(books) && StartsWithAbsolute(tokens)
    requires 1 <= k <= n <= |tokens| && Run(books, tokens, n).Ok?
    ensures Run(books, tokens, k).Ok?
    ensures Run(books, tokens, k).value.sbcs <= Run(books, tokens, n).value.sbcs
  {
    if n > k {
      RunExtendsOne(books, tokens, n);
      RunExtends(books, tokens, k, n - 1);
      PrefixTransitive(Run(books, tokens, k).value.sbcs, Run(books, tokens, n - 1).value.sbcs, Run(books, tokens, n).value.sbcs);
    } else {
      var out := Run(books, tokens, n).value.sbcs;
      assert out[..|out|] == out;
    }
  }

  /** A resolution that succeeds yields at least one span, and every span it
      yields names a book of the catalog. */
  lemma GrammarSpansNameCatalogBooks(books: seq<BookInfo>, tokens: seq<ScriptureToken>)
    requires ValidCatalog(books) && StartsWithAbsolute(tokens)
    requires Grammar(books, tokens).Ok?
    ensures |Grammar(books, tokens).value| > 0
    ensures forall q | 0 <= q < |Grammar(books, tokens).value| :: HasBook(books, Grammar(books, tokens).value[q].book)
  {
    RunCoherent(books, tokens, |tokens|);
  }

  /** The output of every prefix of the tokens is kept in the final output. */
  lemma GrammarKeepsPrefixOutput(books: seq<BookInfo>, tokens: seq<ScriptureToken>, k: nat)
    requires ValidCatalog(books) && StartsWithAbsolute(tokens)
    requires 1 <= k <= |tokens| && Grammar(books, tokens).Ok?
    ensures Run(books, tokens, k).Ok?
    ensures Run(books, tokens, k).value.sbcs <= Grammar(books, tokens).value
  {
    RunExtends(books, tokens, k, |tokens|);
  }

  // ---------------------------------------------------------------------
  // Refused inputs.

  /** Nothing to resolve is an error. */
  lemma EmptyTokensFail(books: seq<BookInfo>)
    requires ValidCatalog(books)
    ensures Grammar(books, []) == Err(NoScripture)
  {
  }

  /** A failing first reference fails the whole resolution with its own error. */
  lemma FirstReferenceFails(books: seq<BookInfo>, tokens: seq<ScriptureToken>)
    requires ValidCatalog(books) && StartsWithAbsolute(tokens) && |tokens| > 0
    requires ExpandAbsoluteRef(books, tokens[0].ref.abs).Err?
    ensures Grammar(books, tokens) == Err(ExpandAbsoluteRef(books, tokens[0].ref.abs).error)
  {
    GrammarFails(books, tokens, 1);
  }

  /** A second operator straight after a first one is refused. */
  lemma OperatorAfterOperator(books: seq<BookInfo>, s: GrammarState, o1: Operator, o2: Operator)
    requires ValidCatalog(books)
    ensures Step(books, s, Op(o1)).Ok? ==> Step(books, Step(books, s, Op(o1)).value, Op(o2)) == Err(MultipleOperators)
    ensures Step(books, s, Op(o1)).Err? ==> Step(books, s, Op(o1)) == Err(MultipleOperators)
  {
  }

  /** The run fails with MultipleOperators at the first or the second of two operators. */
  lemma RunTwoOperators(books: seq<BookInfo>, tokens: seq<ScriptureToken>, k: nat)
    requires ValidCatalog(books) && StartsWithAbsolute(tokens)
    requires 1 <= k && k + 1 < |tokens| && tokens[k].Op? && tokens[k + 1].Op?
    requires Run(books, tokens, k).Ok?
    ensures Run(books, tokens, k + 1) == Err(MultipleOperators) ||
            (Run(books, tokens, k + 1).Ok? && Run(books, tokens, k + 2) == Err(MultipleOperators))
  {
    var s := Run(books, tokens, k).value;
    RunNext(books, tokens, k, s);
    OperatorAfterOperator(books, s, tokens[k].op, tokens[k + 1].op);
    assert tokens[k] == Op(tokens[k].op) && tokens[k + 1] == Op(tokens[k + 1].op);
    if Run(books, tokens, k + 1).Ok? {
      RunNext(books, tokens, k + 1, Run(books, tokens, k + 1).value);
    }
  }

  /** Two operators in a row fail: with MultipleOperators unless an earlier
      token has already failed. */
  lemma ConsecutiveOperatorsFail(books: seq<BookInfo>, tokens: seq<ScriptureToken>, k: nat)
    requires ValidCatalog(books) && StartsWithAbsolute(tokens)
    requires 1 <= k && k + 1 < |tokens| && tokens[k].Op? && tokens[k + 1].Op?
    ensures Grammar(books, tokens).Err?
    ensures Run(books, tokens, k).Ok? ==> Grammar(books, tokens) == Err(MultipleOperators)
  {
    if Run(books, tokens, k).Err? {
      GrammarFails(books, tokens, k);
    } else {
      RunTwoOperators(books, tokens, k);
      var j := if Run(books, tokens, k + 1).Err? then k + 1 else k + 2;
      assert Run(books, tokens, j) == Err(MultipleOperators);
      GrammarFails(books, tokens, j);
    }
  }

  /** A failing expansion anywhere is final: the resolution fails with that error. */
  lemma ExpansionFailureIsFinal(books: seq<BookInfo>, tokens: seq<ScriptureToken>, k: nat)
    requires ValidCatalog(books) && StartsWithAbsolute(tokens)
    requires 1 <= k < |tokens| && tokens[k].Ref? && Run(books, tokens, k).Ok?
    requires ExpandRef(books, Run(books, tokens, k).value.context, LevelFor(Run(books, tokens, k).value), tokens[k].ref).Err?
    ensures Grammar(books, tokens) ==
              Err(ExpandRef(books, Run(books, tokens, k).value.context, LevelFor(Run(books, tokens, k).value), tokens[k].ref).error)
  {
    var s := Run(books, tokens, k).value;
    RunNext(books, tokens, k, s);
    GrammarFails(books, tokens, k + 1);
  }

  /** After a range has been closed there is no pending span, so a second
      "-" straight after it fails (unless the reference itself fails). */
  lemma DashAfterRangeFails(books: seq<BookInfo>, s: GrammarState, r1: ScriptureRef, r2: ScriptureRef)
    requires ValidCatalog(books) && s.pendingOp == Some(Dash)
    requires Step(books, s, Ref(r1)).Ok?
    ensures Step(books, s, Ref(r1)).value.pending.None?
    ensures Step(books, s, Ref(r1)).value.pendingOp.None?
    ensures var s1 := Step(books, s, Ref(r1)).value;
            Step(books, s1, Op(Dash)).Ok? &&
            Step(books, Step(books, s1, Op(Dash)).value, Ref(r2)).Err?
    ensures var s2 := Step(books, Step(books, s, Ref(r1)).value, Op(Dash)).value;
            ExpandRef(books, s2.context, LevelFor(s2), r2).Ok? ==> Step(books, s2, Ref(r2)) == Err(DashWithoutContext)
  {
  }

  // ---------------------------------------------------------------------
  // The separators.

  /** "," leaves the level alone: the reference after it is expanded exactly
      as if no operator had been seen. */
  lemma CommaKeepsLevel(books: seq<BookInfo>, s: GrammarState, r: ScriptureRef)
    requires ValidCatalog(books) && s.pendingOp == Some(Comma)
    ensures Step(books, s, Ref(r)) == Step(books, s.(pendingOp := None), Ref(r))
  {
  }

  /** ";" at verse level drops to chapter level: the reference after it is
      expanded as if the state were at chapter level with no operator. */
  lemma SemicolonLowersVerseLevel(books: seq<BookInfo>, s: GrammarState, r: ScriptureRef)
    requires ValidCatalog(books) && s.pendingOp == Some(Semicolon)
    ensures Step(books, s, Ref(r)) ==
              Step(books, s.(level := if s.level == VerseLevel then ChapterLevel else s.level, pendingOp := None), Ref(r))
  {
  }

  /** Without "-", a reference emits the previous pending span and becomes
      both the new pending span and the new context, at its own level. */
  lemma SeparateReference(books: seq<BookInfo>, s: GrammarState, r: ScriptureRef, ex: Expansion)
    requires ValidCatalog(books) && s.pendingOp != Some(Dash)
    requires ExpandRef(books, s.context, LevelFor(s), r) == Ok(ex)
    ensures Step(books, s, Ref(r)) == Ok(GrammarState(ex.level, Some(ex.sbc), Some(ex.sbc), None, s.sbcs + Flush(s.pending)))
  {
  }

  /** After "Matthew 1:4", the number in "; 6" is chapter 6 of Matthew ... */
  lemma SemicolonNumberIsChapter(books: seq<BookInfo>, s: GrammarState, ctx: ScriptureBookChapter, i: nat, k: nat)
    requires ValidCatalog(books) && i < |books| && k < |books[i].chapters|
    requires s.level == VerseLevel && s.pendingOp == Some(Semicolon) && s.context == Some(ctx)
    requires ctx.book == books[i].name
    ensures var c := books[i].chapters[k];
            var span := ScriptureBookChapter(ctx.book, c.chapter, c.verses.first, c.chapter, c.verses.last);
            Step(books, s, Ref(Contextual(ChapterOrVerse(Numbered(c.chapter, NoSuffix))))) ==
              Ok(GrammarState(ChapterLevel, Some(span), Some(span), None, s.sbcs + Flush(s.pending)))
  {
    ExpandChapterPlain(books, i, k);
  }

  /** ... while in ", 6" it is verse 6 of the context's last chapter. */
  lemma CommaNumberIsVerse(books: seq<BookInfo>, s: GrammarState, ctx: ScriptureBookChapter, i: nat, k: nat, value: Numbered)
    requires ValidCatalog(books) && i < |books| && k < |books[i].chapters|
    requires s.level == VerseLevel && s.pendingOp == Some(Comma) && s.context == Some(ctx)
    requires ctx.book == books[i].name && books[i].chapters[k].chapter == ctx.chapterEnd
    ensures var span := ScriptureBookChapter(ctx.book, ctx.chapterEnd, value.n, ctx.chapterEnd,
                                             VerseEnd(books[i].chapters[k], value));
            Step(books, s, Ref(Contextual(ChapterOrVerse(value)))) ==
              Ok(GrammarState(VerseLevel, Some(span), Some(span), None, s.sbcs + Flush(s.pending)))
  {
    BareNumberAtVerseLevel(books, ctx, i, k, value);
  }

  // ---------------------------------------------------------------------
  // Ranges within one book.

  /** "-" inside one book: it fails when the expanded span starts in an
      earlier chapter, or ends in the same chapter but starts at an earlier
      verse; otherwise it emits one span from the pending start to the
      expanded end, which becomes the context, and clears the pending span. */
  lemma SameBookRange(books: seq<BookInfo>, s: GrammarState, r: ScriptureRef, ex: Expansion)
    requires ValidCatalog(books) && s.pendingOp == Some(Dash) && s.pending.Some?
    requires ExpandRef(books, s.context, LevelFor(s), r) == Ok(ex)
    requires ex.sbc.book == s.pending.value.book
    ensures var p := s.pending.value;
            ex.sbc.chapterStart < p.chapterStart ==> Step(books, s, Ref(r)) == Err(RangeStartsBeforeContext)
    ensures var p := s.pending.value;
            p.chapterStart <= ex.sbc.chapterStart && ex.sbc.chapterEnd == p.chapterEnd && ex.sbc.verseStart < p.verseStart ==>
              Step(books, s, Ref(r)) == Err(RangeEndsAfterContext)
    ensures var p := s.pending.value;
            Step(books, s, Ref(r)).Ok? <==>
              p.chapterStart <= ex.sbc.chapterStart && (ex.sbc.chapterEnd == p.chapterEnd ==> p.verseStart <= ex.sbc.verseStart)
    ensures Step(books, s, Ref(r)).Ok? ==>
              var p := s.pending.value;
              var s1 := Step(books, s, Ref(r)).value;
              && s1.sbcs == s.sbcs + [s1.context.value]
              && s1.pending.None? && s1.pendingOp.None? && s1.level == ex.level
              && s1.context.value.book == p.book
              && VC.ChapterVerseStart(s1.context.value) == VC.ChapterVerseStart(p)
              && VC.ChapterVerseEnd(s1.context.value) == VC.ChapterVerseEnd(ex.sbc)
  {
  }

  /** A span whose start is not after its end. */
  predicate Forward(sbc: ScriptureBookChapter)
  {
    VC.ChapterVerseCompare(VC.ChapterVerseStart(sbc), VC.ChapterVerseEnd(sbc)) != VC.After
  }

  /** Joining a one-chapter span to a forward span that passes both range
      checks gives a forward span. */
  lemma MergeForward(p: ScriptureBookChapter, e: ScriptureBookChapter)
    requires p.chapterStart == p.chapterEnd && Forward(e)
    requires p.chapterStart <= e.chapterStart
    requires e.chapterEnd == p.chapterEnd ==> p.verseStart <= e.verseStart
    ensures Forward(p.(chapterEnd := e.chapterEnd, verseEnd := e.verseEnd))
  {
    VC.CompareIsLexicographic(VC.ChapterVerseStart(e), VC.ChapterVerseEnd(e));
  }

  /** When the pending span lies within one chapter and the expanded span
      runs forward, the merged in-book range runs forward too. */
  lemma SameBookRangeForward(books: seq<BookInfo>, s: GrammarState, r: ScriptureRef, ex: Expansion)
    requires ValidCatalog(books) && s.pendingOp == Some(Dash) && s.pending.Some?
    requires ExpandRef(books, s.context, LevelFor(s), r) == Ok(ex)
    requires ex.sbc.book == s.pending.value.book
    requires s.pending.value.chapterStart == s.pending.value.chapterEnd && Forward(ex.sbc)
    requires Step(books, s, Ref(r)).Ok?
    ensures Forward(Step(books, s, Ref(r)).value.context.value)
  {
    SameBookRange(books, s, r, ex);
    var p := s.pending.value;
    MergeForward(p, ex.sbc);
  }

  // ---------------------------------------------------------------------
  // Ranges across books.

  /** "-" from book i to another book j: backwards it fails; forwards it
      emits the rest of book i, every book between whole, and book j up to
      the expanded end, which becomes the context. */
  lemma CrossBookStep(books: seq<BookInfo>, s: GrammarState, r: ScriptureRef, ex: Expansion, i: nat, j: nat)
    requires ValidCatalog(books) && s.pendingOp == Some(Dash) && s.pending.Some?
    requires ExpandRef(books, s.context, LevelFor(s), r) == Ok(ex)
    requires i < |books| && j < |books| && i != j
    requires s.pending.value.book == books[i].name && ex.sbc.book == books[j].name
    ensures j < i ==> Step(books, s, Ref(r)) == Err(BookRangeOutOfSequence)
    ensures i < j ==>
              var p := s.pending.value;
              var head := p.(chapterEnd := LastChapter(books[i]).chapter, verseEnd := LastChapter(books[i]).verses.last);
              var tail := ex.sbc.(chapterStart := books[j].chapters[0].chapter, verseStart := books[j].chapters[0].verses.first);
              Step(books, s, Ref(r)) ==
                Ok(GrammarState(ex.level, None, Some(tail), None, s.sbcs + ([head] + WholeBookSpans(books[i + 1..j]) + [tail])))
  {
    CrossBookMergeByIndex(books, i, j, s.pending.value, ex.sbc);
  }

  // ---------------------------------------------------------------------
  // The guard as the source writes it.

  /** With the source's guard a reversed range from book i back to book j is
      accepted whenever book i is not the last of the catalog: the range runs
      to the end of the catalog, and its last span carries book j's name with
      the start of the catalog's last book. */
  lemma ReversedRangeAsWritten(books: seq<BookInfo>, i: nat, j: nat, p: ScriptureBookChapter, ex: ScriptureBookChapter)
    requires ValidCatalog(books) && j < i < |books| - 1
    requires p.book == books[i].name && ex.book == books[j].name
    ensures CrossBookMergeAsWritten(books, p, ex).Ok?
    ensures var spans := CrossBookMergeAsWritten(books, p, ex).value;
            && |spans| == |books| - i
            && spans[|spans| - 1].book == books[j].name
            && spans[|spans| - 1].chapterStart == books[|books| - 1].chapters[0].chapter
  {
    BookRangeToEnd(books, i, books[j].name);
    var range := books[i..];
    MiddleSpansWholeBooks(books, range[1..|range| - 1]);
  }

  /** The two guards disagree only on a reversed range whose start book is
      not the last of the catalog; everywhere else the merges are equal. */
  lemma CrossBookGuardsAgree(books: seq<BookInfo>, i: nat, j: nat, p: ScriptureBookChapter, ex: ScriptureBookChapter)
    requires ValidCatalog(books) && i < |books| && j < |books|
    requires p.book == books[i].name && ex.book == books[j].name
    requires !(j < i < |books| - 1)
    ensures CrossBookMergeAsWritten(books, p, ex) == CrossBookMerge(books, p, ex)
  {
    if i <= j {
      BookRangeSlice(books, i, j);
    } else {
      BookRangeToEnd(books, i, books[j].name);
    }
  }

  /** The corrected guard accepts a cross-book range exactly when it runs forward. */
  lemma CrossBookMergeForwardIff(books: seq<BookInfo>, i: nat, j: nat, p: ScriptureBookChapter, ex: ScriptureBookChapter)
    requires ValidCatalog(books) && i < |books| && j < |books|
    requires p.book == books[i].name && ex.book == books[j].name
    ensures CrossBookMerge(books, p, ex).Ok? <==> i < j
  {
    CrossBookMergeByIndex(books, i, j, p, ex);
  }
}
