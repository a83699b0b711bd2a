/** The grammar state machine: the token list is folded over a state made of
    the current level, the pending span, the context span, the pending
    operator and the spans emitted so far. Step is one transition, Grammar
    the whole fold, and ApplyGrammar the loop that computes it in place. */
module VerseRefGrammar {
  import opened Types
  import opened VerseRef
  import VC = VerseComparison

  datatype GrammarState = GrammarState(
    level: ParserLevel,
    pending: Option<ScriptureBookChapter>,
    context: Option<ScriptureBookChapter>,
    pendingOp: Option<Operator>,
    sbcs: seq<ScriptureBookChapter>)

  /** The tokenizer always delivers an absolute reference first. */
  predicate StartsWithAbsolute(tokens: seq<ScriptureToken>)
  {
    |tokens| > 0 ==> tokens[0].Ref? && tokens[0].ref.Absolute?
  }

  /** The pending span, if any, as the spans it contributes to the output. */
  function Flush(pending: Option<ScriptureBookChapter>): seq<ScriptureBookChapter>
  {
    if pending.Some? then [pending.value] else []
  }

  /** The level a reference is expanded at: ";" drops verse level to chapter level. */
  function LevelFor(s: GrammarState): ParserLevel
  {
    if s.pendingOp == Some(Semicolon) && s.level == VerseLevel then ChapterLevel else s.level
  }

  /** Each book of the list as the span of the whole book. */
  function WholeBookSpans(bs: seq<BookInfo>): (r: seq<ScriptureBookChapter>)
    requires forall q | 0 <= q < |bs| :: |bs[q].chapters| > 0
    ensures |r| == |bs|
  {
    if |bs| == 0 then []
    else WholeBookSpans(bs[..|bs| - 1]) + [BookToSbc(bs[|bs| - 1])]
  }

  /** The q-th span is the q-th book whole. */
  lemma {:induction false} WholeBookSpansAt(bs: seq<BookInfo>)
    requires forall q | 0 <= q < |bs| :: |bs[q].chapters| > 0
    ensures forall q | 0 <= q < |bs| :: WholeBookSpans(bs)[q] == BookToSbc(bs[q])
  {
    if |bs| > 0 {
      WholeBookSpansAt(bs[..|bs| - 1]);
      assert forall q | 0 <= q < |bs| - 1 :: bs[..|bs| - 1][q] == bs[q];
    }
  }

  /** The whole-book spans of the books strictly inside a cross-book range. */
  function MiddleSpans(books: seq<BookInfo>, middle: seq<BookInfo>): (r: Result<seq<ScriptureBookChapter>>)
    requires ChaptersPresent(books)
    ensures r.Ok? ==> |r.value| == |middle|
  {
    if |middle| == 0 then Ok([])
    else
      match MiddleSpans(books, middle[..|middle| - 1])
      case Err(e) => Err(e)
      case Ok(spans) =>
        match ExpandAbsoluteRef(books, ToBook(middle[|middle| - 1].name))
        case Err(e) => Err(e)
        case Ok(be) => Ok(spans + [be.sbc])
  }

  /** The spans of a cross-book range over the catalog books in range: the
      pending span's start to the end of the first book, every middle book
      whole, and the last book's start to the expanded span's end. */
  function CrossBookSpans(books: seq<BookInfo>, range: seq<BookInfo>, pending: ScriptureBookChapter,
                          expanded: ScriptureBookChapter): (r: Result<seq<ScriptureBookChapter>>)
    requires ChaptersPresent(books)
    requires |range| >= 2 && forall q | 0 <= q < |range| :: range[q] in books
    ensures r.Ok? ==> |r.value| == |range|
  {
    var first := range[0];
    var head := pending.(chapterEnd := LastChapter(first).chapter, verseEnd := LastChapter(first).verses.last);
    match MiddleSpans(books, range[1..|range| - 1])
    case Err(e) => Err(e)
    case Ok(middle) =>
      var last := range[|range| - 1];
      var tail := expanded.(chapterStart := last.chapters[0].chapter, verseStart := last.chapters[0].verses.first);
      Ok([head] + middle + [tail])
  }

  /** The cross-book merge as the source writes it: it only rejects a range
      of fewer than two books (see CrossBookMerge for the corrected guard). */
  function CrossBookMergeAsWritten(books: seq<BookInfo>, pending: ScriptureBookChapter,
                                   expanded: ScriptureBookChapter): (r: Result<seq<ScriptureBookChapter>>)
    requires ChaptersPresent(books)
    ensures r.Ok? ==> |r.value| >= 2
  {
    var range := BookRangeOf(books, pending.book, expanded.book);
    BookRangeWithin(books, pending.book, expanded.book);
    if |range| < 2 then Err(BookRangeOutOfSequence)
    else CrossBookSpans(books, range, pending, expanded)
  }

  /** The cross-book merge with the guard the failure evidently means: the
      range must hold at least two books and end at the expanded span's book. */
  function CrossBookMerge(books: seq<BookInfo>, pending: ScriptureBookChapter,
                          expanded: ScriptureBookChapter): (r: Result<seq<ScriptureBookChapter>>)
    requires ChaptersPresent(books)
    ensures r.Ok? ==> |r.value| >= 2
  {
    var range := BookRangeOf(books, pending.book, expanded.book);
    BookRangeWithin(books, pending.book, expanded.book);
    if |range| < 2 || range[|range| - 1].name != expanded.book then Err(BookRangeOutOfSequence)
    else CrossBookSpans(books, range, pending, expanded)
  }

  /** One transition of the grammar on one token. */
  function Step(books: seq<BookInfo>, s: GrammarState, t: ScriptureToken): Result<GrammarState>
    requires ChaptersPresent(books)
  {
    match t
    case Op(o) =>
      if s.pendingOp.Some? then Err(MultipleOperators) else Ok(s.(pendingOp := Some(o)))
    case Ref(ref) =>
      match ExpandRef(books, s.context, LevelFor(s), ref)
      case Err(e) => Err(e)
      case Ok(ex) => StepExpanded(books, s, ex)
  }

  /** The transition on a reference once it has been expanded: without a
      pending "-" the span becomes pending, with one the range is closed. */
  function StepExpanded(books: seq<BookInfo>, s: GrammarState, ex: Expansion): Result<GrammarState>
    requires ChaptersPresent(books)
  {
    if s.pendingOp != Some(Dash) then
      Ok(GrammarState(ex.level, Some(ex.sbc), Some(ex.sbc), None, s.sbcs + Flush(s.pending)))
    else if s.pending.None? then Err(DashWithoutContext)
    else
      var p := s.pending.value;
      if p.book == ex.sbc.book then
        if ex.sbc.chapterStart < p.chapterStart then Err(RangeStartsBeforeContext)
        else if ex.sbc.chapterEnd == p.chapterEnd && ex.sbc.verseStart < p.verseStart then Err(RangeEndsAfterContext)
        else
          var merged := p.(chapterEnd := ex.sbc.chapterEnd, verseEnd := ex.sbc.verseEnd);
          Ok(GrammarState(ex.level, None, Some(merged), None, s.sbcs + [merged]))
      else
        match CrossBookMerge(books, p, ex.sbc)
        case Err(e) => Err(e)
        case Ok(spans) => Ok(GrammarState(ex.level, None, Some(spans[|spans| - 1]), None, s.sbcs + spans))
  }

  /** The state once the first k tokens are consumed, or the first failure. */
  function Run(books: seq<BookInfo>, tokens: seq<ScriptureToken>, k: nat): Result<GrammarState>
    requires ChaptersPresent(books) && StartsWithAbsolute(tokens)
    requires 1 <= k <= |tokens|
  {
    if k == 1 then
      match ExpandAbsoluteRef(books, tokens[0].ref.abs)
      case Err(e) => Err(e)
      case Ok(first) => Ok(GrammarState(first.level, Some(first.sbc), Some(first.sbc), None, []))
    else
      match Run(books, tokens, k - 1)
      case Err(e) => Err(e)
      case Ok(s) => Step(books, s, tokens[k - 1])
  }

  /** The spans a token list resolves to, or the first failure. */
  function Grammar(books: seq<BookInfo>, tokens: seq<ScriptureToken>): Result<seq<ScriptureBookChapter>>
    requires ChaptersPresent(books) && StartsWithAbsolute(tokens)
  {
    if |tokens| == 0 then Err(NoScripture)
    else
      match Run(books, tokens, |tokens|)
      case Err(e) => Err(e)
      case Ok(s) => Ok(s.sbcs + Flush(s.pending))
  }

  lemma {:induction false} RunStaysFailed(books: seq<BookInfo>, tokens: seq<ScriptureToken>, k: nat, n: nat)
    requires ChaptersPresent(books) && StartsWithAbsolute(tokens)
    requires 1 <= k <= n <= |tokens| && Run(books, tokens, k).Err?
    ensures Run(books, tokens, n) == Run(books, tokens, k)
  {
    if n > k {
      RunStaysFailed(books, tokens, k, n - 1);
    }
  }

  /** Once a prefix of the tokens fails, the whole list fails with the same error. */
  lemma GrammarFails(books: seq<BookInfo>, tokens: seq<ScriptureToken>, k: nat)
    requires ChaptersPresent(books) && StartsWithAbsolute(tokens)
    requires 1 <= k <= |tokens| && Run(books, tokens, k).Err?
    ensures Grammar(books, tokens) == Err(Run(books, tokens, k).error)
  {
    RunStaysFailed(books, tokens, k, |tokens|);
  }

  lemma {:induction false} MiddleSpansStayFailed(books: seq<BookInfo>, middle: seq<BookInfo>, m: nat, n: nat)
    requires ChaptersPresent(books)
    requires m <= n <= |middle| && MiddleSpans(books, middle[..m]).Err?
    ensures MiddleSpans(books, middle[..n]) == MiddleSpans(books, middle[..m])
  {
    if n > m {
      MiddleSpansStayFailed(books, middle, m, n - 1);
      assert middle[..n][..n - 1] == middle[..n - 1];
    }
  }

  /** The inner loop of the cross-book branch: one whole-book span per middle book. */
  method MiddleBookSpans(books: seq<BookInfo>, middle: seq<BookInfo>) returns (r: Result<seq<ScriptureBookChapter>>)
    requires ChaptersPresent(books)
    ensures r == MiddleSpans(books, middle)
  {
    var sbcs: seq<ScriptureBookChapter> := [];
    for m := 0 to |middle|
      invariant MiddleSpans(books, middle[..m]) == Ok(sbcs)
    {
      assert middle[..m + 1][..m] == middle[..m];
      var be := ExpandAbsoluteRef(books, ToBook(middle[m].name));
      if be.Err? {
        MiddleSpansStayFailed(books, middle, m + 1, |middle|);
        assert middle[..|middle|] == middle;
        return Err(be.error);
      }
      sbcs := sbcs + [be.value.sbc];
    }
    assert middle[..|middle|] == middle;
    return Ok(sbcs);
  }

  /** The cross-book branch of "-": from the pending span's start through
      the catalog books up to the expanded span's end. */
  method CrossBookRange(books: seq<BookInfo>, p: ScriptureBookChapter, ex: ScriptureBookChapter)
    returns (r: Result<seq<ScriptureBookChapter>>)
    requires ChaptersPresent(books)
    ensures r == CrossBookMerge(books, p, ex)
  {
    var bookRange := BookRange(books, p.book, ex.book);
    BookRangeWithin(books, p.book, ex.book);
    if |bookRange| < 2 || bookRange[|bookRange| - 1].name != ex.book {
      return Err(BookRangeOutOfSequence);
    }
    var firstBook := bookRange[0];
    var head := p.(chapterEnd := LastChapter(firstBook).chapter, verseEnd := LastChapter(firstBook).verses.last);
    var middle := MiddleBookSpans(books, bookRange[1..|bookRange| - 1]);
    if middle.Err? {
      return Err(middle.error);
    }
    var last := bookRange[|bookRange| - 1];
    var tail := ex.(chapterStart := last.chapters[0].chapter, verseStart := last.chapters[0].verses.first);
    return Ok([head] + middle.value + [tail]);
  }

  /** The body of the grammar loop: one token applied to the state. */
  method ApplyToken(books: seq<BookInfo>, s: GrammarState, t: ScriptureToken) returns (r: Result<GrammarState>)
    requires ChaptersPresent(books)
    ensures r == Step(books, s, t)
  {
    var level, pendingSbc, contextSbc, pendingOperator, sbcs := s.level, s.pending, s.context, s.pendingOp, s.sbcs;
    match t {
    case Op(o) =>
      if pendingOperator.Some? {
        return Err(MultipleOperators);
      }
      pendingOperator := Some(o);
    case Ref(ref) =>
      if pendingOperator == Some(Comma) {
        pendingOperator := None;
      } else if pendingOperator == Some(Semicolon) {
        // at verse level go to chapter level, otherwise keep the level
        if level == VerseLevel {
          level := ChapterLevel;
        }
        pendingOperator := None;
      }
      assert pendingOperator.Some? ==> pendingOperator.value.Dash?;
      var expanded := ExpandRef(books, contextSbc, level, ref);
      if expanded.Err? {
        return Err(expanded.error);
      }
      level := expanded.value.level;
      var ex := expanded.value.sbc;
      if pendingOperator == Some(Dash) {
        if pendingSbc.None? {
          return Err(DashWithoutContext);
        }
        var p := pendingSbc.value;
        if p.book == ex.book {
          // in-book ranges must not run backwards
          if ex.chapterStart < p.chapterStart {
            return Err(RangeStartsBeforeContext);
          }
          if ex.chapterEnd == p.chapterEnd && ex.verseStart < p.verseStart {
            return Err(RangeEndsAfterContext);
          }
          var merged := p.(chapterEnd := ex.chapterEnd, verseEnd := ex.verseEnd);
          sbcs := sbcs + [merged];
          contextSbc := Some(merged);
        } else {
          var spans := CrossBookRange(books, p, ex);
          if spans.Err? {
            return Err(spans.error);
          }
          sbcs := sbcs + spans.value;
          contextSbc := Some(spans.value[|spans.value| - 1]);
        }
        pendingSbc := None;
        pendingOperator := None;
      } else {
        if pendingSbc.Some? {
          sbcs := sbcs + [pendingSbc.value];
        }
        assert sbcs == s.sbcs + Flush(s.pending);
        pendingSbc := Some(ex);
        contextSbc := pendingSbc;
      }
    }
    return Ok(GrammarState(level, pendingSbc, contextSbc, pendingOperator, sbcs));
  }

  method ApplyGrammar(books: seq<BookInfo>, params: seq<ScriptureToken>) returns (result: Result<seq<ScriptureBookChapter>>)
    requires ChaptersPresent(books) && StartsWithAbsolute(params)
    ensures result == Grammar(books, params)
  {
    if |params| == 0 {
      return Err(NoScripture);
    }
    // the first reference is absolute by construction
    var first := ExpandAbsoluteRef(books, params[0].ref.abs);
    if first.Err? {
      GrammarFails(books, params, 1);
      return Err(first.error);
    }

    // the grammar's state
    var sbcs: seq<ScriptureBookChapter> := [];
    var level := first.value.level;
    var pendingSbc: Option<ScriptureBookChapter> := Some(first.value.sbc);
    var contextSbc := pendingSbc;
    var pendingOperator: Option<Operator> := None;

    for i := 1 to |params|
      invariant Run(books, params, i) == Ok(GrammarState(level, pendingSbc, contextSbc, pendingOperator, sbcs))
    {
      var next := ApplyToken(books, GrammarState(level, pendingSbc, contextSbc, pendingOperator, sbcs), params[i]);
      if next.Err? {
        GrammarFails(books, params, i + 1);
        return Err(next.error);
      }
      level, pendingSbc, contextSbc, pendingOperator, sbcs :=
        next.value.level, next.value.pending, next.value.context, next.value.pendingOp, next.value.sbcs;
    }
    ghost var final := GrammarState(level, pendingSbc, contextSbc, pendingOperator, sbcs);
    if pendingSbc.Some? {
      sbcs := sbcs + [pendingSbc.value];
    }
    assert sbcs == final.sbcs + Flush(final.pending);
    return Ok(sbcs);
  }
}
