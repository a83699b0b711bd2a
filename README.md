# verseref resolution core, modelled in Dafny

verseref turns a Bible citation such as `Matthew 2:4ff-3:9; 5` into a list of
spans. A span is a book with a start chapter/verse and an end chapter/verse.
This project models the part of the library that comes after tokenizing. It
covers:

- **Catalog lookups** (`Types.dfy`, module `Types`). The catalog records, `FindBook`
  and `FindChapter`, and `BookRange`, the in-place scan that collects the catalog
  books from a start book to an end book.
- **Reference expansion** (`VerseRef.dfy`, module `VerseRef`). The token and
  reference datatypes, and the three expanders. An absolute reference
  (book / book chapter / book chapter:verse, each number with an optional `f`
  or `ff` suffix) becomes a concrete span and a level. A contextual reference
  (a bare number, or chapter:verse) is resolved against the current context span
  and level.
- **The grammar** (`Grammar.dfy`, module `VerseRefGrammar`). `ApplyGrammar` folds
  the token list over a state: level, pending span, context span, pending
  operator, spans emitted so far. It handles `,` (same level), `;` (verse level
  drops to chapter level) and `-` (a range inside one book, or a range across
  catalog books). The fold is specified by the functions `Step`, `Run` and
  `Grammar`. The methods `ApplyToken`, `CrossBookRange`, `MiddleBookSpans` and
  `ApplyGrammar` are the imperative code, each proved equal to its function.
  They follow the source except for one guard: a cross-book range must run
  forward, which the source's guard does not check (see "## Findings").
- **What the grammar guarantees** (`GrammarProperties.dfy`). Bookkeeping invariants, operator
  behaviour, in-book and cross-book ranges, and refused inputs.
- **The abbreviation index** (`BookAbbreviations.dfy`). Every book is known by:
  - its name;
  - its name without spaces;
  - every kept proper prefix of either that exactly one book yields;
  - the curated aliases.

  `GenerateAbbreviations` is the three-pass builder, proved equal to the function
  `AbbreviationIndex`.
- **Verse comparison** (`VerseComparison.dfy`). The three-way (chapter, verse)
  comparator and the start/end projections of a span.
- **Worked scenarios** (`Examples.dfy`). The repository's test scenarios, on a
  small four-gospel catalog.

Modelling choices:

- Errors are the datatype `VerseRef.Error`.
- The expanders and the grammar assume only `ChaptersPresent`: every catalog book
  has at least one chapter.
- Lemmas that need a lookup by name to hit a specific book assume `ValidCatalog`.
  It also requires unique book names and unique chapter numbers per book.
- Tokens are the explicit sequence the tokenizer would deliver. Its first token is
  an absolute reference (`StartsWithAbsolute`).

## Model

| member | source | states |
|---|---|---|
| Types.FindBook | Types.ts:49-51 | a found book carries the requested name |
| Types.FindBookFound | Types.ts:49-51 | a found book is a catalog book; nothing is found exactly when no catalog book has the name |
| Types.FindBookFirst | Types.ts:49-51 | when names repeat, the first book with the name is returned |
| Types.FindBookAt | Types.ts:49-51 | over unique names, looking up book i's name returns book i |
| Types.FindChapter | Types.ts:45-47 | a found chapter carries the requested number |
| Types.FirstChapter | Types.ts:45-47 | the search over the chapter list returns a chapter with the requested number |
| Types.FirstChapterFound | Types.ts:45-47 | a found chapter is in the list; nothing is found exactly when no chapter has the number |
| Types.FindChapterFound | Types.ts:45-47 | the same, stated for a book |
| Types.FirstChapterFirst | Types.ts:45-47 | when numbers repeat, the first chapter with the number is returned |
| Types.FindChapterAt | Types.ts:45-47 | over unique numbers, looking up chapter k's number returns chapter k |
| Types.ScanTo | Types.ts:31-41 | the matches and the flag after the loop has seen the first k books; characterised by `ScanFrom` and `ScanWithoutStart` |
| Types.BookRangeOf | Types.ts:28-43 | the matches once the whole catalog is scanned; characterised by `BookRangeSlice`, `BookRangeToEnd`, `BookRangeWithoutStart` and `BookRangeContiguous` |
| Types.BookRange | Types.ts:28-43 | the loop with its in-range flag computes `BookRangeOf`, the scan function |
| Types.ScanFrom | Types.ts:31-41 | from the start book on, the scan collects the catalog slice up to and including the first end-book match (or to the end of the catalog); before it, nothing |
| Types.ScanBeforeStart | Types.ts:31-41 | before the start book the scan collects nothing and the flag is down |
| Types.ScanAtStart | Types.ts:32-40 | the start book is collected, and the flag stays up unless it is also the end book |
| Types.ScanAfterStart | Types.ts:35-40 | after the start book each book is collected until the end book, which is collected and lowers the flag |
| Types.BookRangeSlice | Types.ts:28-43 | from book i to book j (i <= j) the range is exactly `books[i..j+1]` |
| Types.BookRangeToEnd | Types.ts:28-43 | when the end book is absent, or lies before the start, the range runs from the start book to the end of the catalog |
| Types.ScanWithoutStart | Types.ts:31-41 | without the start book the scan never raises its flag |
| Types.BookRangeWithoutStart | Types.ts:28-43 | without the start book the range is empty |
| Types.BookRangeContiguous | Types.ts:28-43 | over unique names the range is always one contiguous slice of the catalog |
| Types.ScanWithin | Types.ts:31-41 | every collected book is a catalog book |
| Types.BookRangeWithin | Types.ts:28-43 | every book of the range is a catalog book |
| VerseRef.BookToSbc | VerseRef.ts:30-40 | the span of a whole book; stated by `ExpandWholeBook` and `GrammarProperties.WholeBookExpansion` |
| VerseRef.ExpandAbsoluteRef | VerseRef.ts:42-164 | a success names the referenced book at the reference's level, and starts at the referenced chapter |
| VerseRef.ExpandAbsoluteRefBook | VerseRef.ts:43-46 | an unknown book fails with BookNotFound; a success names a catalog book |
| VerseRef.ExpandWholeBook | VerseRef.ts:30-51 | a book reference spans the first chapter's first verse to the last chapter's last verse, at book level |
| VerseRef.ExpandChapterPlain | VerseRef.ts:99-118 | a chapter without suffix spans exactly that chapter, at chapter level |
| VerseRef.ExpandChapterFollowingAll | VerseRef.ts:53-72 | chapter `ff` runs to the book's last chapter and last verse |
| VerseRef.ExpandChapterFollowing | VerseRef.ts:73-98 | chapter `f` runs to the last verse of chapter n+1 |
| VerseRef.ExpandChapterFollowingMissing | VerseRef.ts:73-98 | chapter `f` with no chapter n+1 fails, naming n+1 |
| VerseRef.ExpandChapterMissing | VerseRef.ts:53-124 | a chapter the book lacks fails with ChapterNotFound, whatever the suffixes |
| VerseRef.ExpandVerse | VerseRef.ts:120-162 | a verse reference stays in its chapter: from the verse to itself, to the next verse (unchecked), or (`ff`) to the chapter's last verse; the chapter's suffix is ignored |
| VerseRef.LevelOf | VerseRef.ts:48-163 | the level of each reference kind: book, chapter or verse; stated by the level clause of `ExpandAbsoluteRef` and by `ExpandWholeBook`, `ExpandChapterPlain` and `ExpandVerse` |
| VerseRef.VerseEnd | VerseRef.ts:125-160 | the last verse of a verse reference: the verse itself, the next one (unchecked), or the chapter's last verse for `ff`; stated by `ExpandVerse` |
| VerseRef.MergeLevel | VerseRef.ts:172-180 | a failure passes through and a success is relabelled; `ExpandContextualRef`'s level clause states the effect |
| VerseRef.ExpandContextualRef | VerseRef.ts:166-224 | a bare number at book level fails; a success stays in the context's book, at the given level for a bare number and verse level for chapter:verse |
| VerseRef.ExpandRef | VerseRef.ts:226-242 | a contextual reference without context fails with NoContext; a success names the absolute reference's book or the context's book |
| VerseRef.ExpandRefBook | VerseRef.ts:226-242 | a successful absolute reference names a catalog book |
| VerseRef.BareNumberAtChapterLevel | VerseRef.ts:189-198 | at chapter level a bare number is a chapter of the context's book |
| VerseRef.BareNumberAtVerseLevel | VerseRef.ts:199-210 | at verse level a bare number is a verse of the context's last chapter, at verse level |
| VerseRef.ContextualChapterVerse | VerseRef.ts:212-222 | chapter:verse is that chapter and verse of the context's book |
| VerseRefGrammar.Flush | VerseRef.ts:355-367 | a pending span is emitted, and nothing otherwise; stated by `SeparateReference` and `GrammarDone` |
| VerseRefGrammar.LevelFor | VerseRef.ts:276-283 | `;` turns verse level into chapter level, and every other case keeps the level; stated by `SemicolonLowersVerseLevel`, `CommaKeepsLevel` and `SemicolonNumberIsChapter` |
| VerseRefGrammar.WholeBookSpans | VerseRef.ts:331-344 | one span per middle book |
| VerseRefGrammar.WholeBookSpansAt | VerseRef.ts:331-344 | the q-th span is the q-th middle book, whole |
| VerseRefGrammar.MiddleSpans | VerseRef.ts:331-344 | a success yields one span per middle book |
| VerseRefGrammar.CrossBookSpans | VerseRef.ts:325-351 | a success yields one span per book of the range |
| VerseRefGrammar.CrossBookMergeAsWritten | VerseRef.ts:321-352 | the cross-book merge with the guard as written; a success yields at least two spans (see Findings, `ReversedRangeAsWritten`, `CrossBookGuardsAgree`) |
| VerseRefGrammar.CrossBookMerge | VerseRef.ts:320-352 | a success yields at least two spans (the guard is the corrected one, see Findings) |
| VerseRefGrammar.Step | VerseRef.ts:264-362 | one transition; its effect per operator is stated by the lemmas of `GrammarProperties` (`OperatorAfterOperator`, `CommaKeepsLevel`, `SemicolonLowersVerseLevel`, `SeparateReference`, `SameBookRange`, `CrossBookStep`, `StepCoherent`) |
| VerseRefGrammar.StepExpanded | VerseRef.ts:289-360 | the transition on an expanded reference; stated by `SeparateReference`, `SameBookRange` and `CrossBookStep` |
| VerseRefGrammar.Run | VerseRef.ts:249-364 | the state after a prefix of the tokens; stated by `RunCoherent`, `RunExtends` and `RunStaysFailed` |
| VerseRefGrammar.Grammar | VerseRef.ts:244-369 | the resolution of a token list; stated by `GrammarFails`, `GrammarSpansNameCatalogBooks`, `GrammarKeepsPrefixOutput` and `ConsecutiveOperatorsFail` |
| VerseRefGrammar.RunStaysFailed | VerseRef.ts:263-364 | once the fold fails, later tokens keep the same error |
| VerseRefGrammar.GrammarFails | VerseRef.ts:263-364 | a failing prefix fails the whole resolution with its error |
| VerseRefGrammar.MiddleSpansStayFailed | VerseRef.ts:332-344 | once a middle book fails, the inner loop's result stays that failure |
| VerseRefGrammar.MiddleBookSpans | VerseRef.ts:331-344 | the inner loop computes `MiddleSpans` |
| VerseRefGrammar.CrossBookRange | VerseRef.ts:320-352 | the cross-book branch, with the corrected guard, computes `CrossBookMerge` |
| VerseRefGrammar.ApplyToken | VerseRef.ts:264-362 | one pass of the loop body computes `Step` (which uses the corrected cross-book guard) |
| VerseRefGrammar.ApplyGrammar | VerseRef.ts:244-369 | the whole procedure computes `Grammar`: no tokens fails, a failing first reference fails, and otherwise the fold and the final flush (with the corrected cross-book guard) |
| GrammarProperties.WholeBookExpansion | VerseRef.ts:333-343 | the synthetic book reference for a catalog book expands to that whole book |
| GrammarProperties.MiddleSpansWholeBooks | VerseRef.ts:331-344 | for catalog books the inner loop never fails and yields each book whole |
| GrammarProperties.CrossBookMergeByIndex | VerseRef.ts:320-352 | for the corrected merge, from book i to book j: j <= i fails with BookRangeOutOfSequence; i < j yields the rest of book i, the books between whole, and book j up to the expanded end |
| GrammarProperties.CrossBookMergeForwardIff | VerseRef.ts:320-352 | the corrected guard accepts exactly the forward ranges |
| GrammarProperties.CrossBookGuardsAgree | VerseRef.ts:320-352 | the merge as written and the corrected merge are equal except on a reversed range whose start book is not the last catalog book |
| GrammarProperties.ReversedRangeAsWritten | VerseRef.ts:321-324 | the guard as written accepts a reversed range: it runs to the end of the catalog, and its last span has the end book's name but the last catalog book's start |
| GrammarProperties.CrossBookStep | VerseRef.ts:320-354 | the dash step across books, with the corrected guard: backwards fails; forwards emits head, middle books and tail, and the tail becomes the context |
| GrammarProperties.StepExtends | VerseRef.ts:264-362 | a transition only appends to the output |
| GrammarProperties.CoherentAfterSeparate | VerseRef.ts:355-360 | emitting the pending span and taking the new one keeps the bookkeeping invariant |
| GrammarProperties.CoherentAfterRange | VerseRef.ts:313-353 | closing a range keeps the bookkeeping invariant |
| GrammarProperties.MiddleSpansNameBooks | VerseRef.ts:331-344 | each middle span names its catalog book |
| GrammarProperties.RangeSpansNameBooks | VerseRef.ts:325-351 | head, middle and tail spans all name catalog books |
| GrammarProperties.CrossBookMergeBooks | VerseRef.ts:320-352 | every span of an accepted cross-book range names a catalog book |
| GrammarProperties.StepCoherent | VerseRef.ts:264-362 | one transition keeps the invariant: a context always exists, a pending span is the context, otherwise the last emitted span is, and every span names a catalog book |
| GrammarProperties.RunCoherent | VerseRef.ts:249-364 | the invariant holds after every prefix of the tokens |
| GrammarProperties.RunFirst | VerseRef.ts:249-261 | unfolding of `Run` on one token: the first reference becomes pending and context, at its level, with nothing emitted |
| GrammarProperties.RunNext | VerseRef.ts:263-364 | unfolding of `Run`: each further token is one transition |
| GrammarProperties.GrammarDone | VerseRef.ts:365-368 | unfolding of `Grammar`: the result is the emitted spans followed by the pending span, if any |
| GrammarProperties.RunStep | VerseRef.ts:263-364 | unfolding of `Run`: a successful prefix got there by one successful transition |
| GrammarProperties.RunExtendsOne | VerseRef.ts:263-364 | one more token only appends to the output |
| GrammarProperties.RunExtends | VerseRef.ts:263-364 | spans once emitted are never taken back |
| GrammarProperties.GrammarSpansNameCatalogBooks | VerseRef.ts:244-369 | a successful resolution yields at least one span, and every span names a catalog book |
| GrammarProperties.GrammarKeepsPrefixOutput | VerseRef.ts:244-369 | the output of every prefix is a prefix of the final output |
| GrammarProperties.EmptyTokensFail | VerseRef.ts:245-247 | unfolding of `Grammar`: no tokens is NoScripture |
| GrammarProperties.FirstReferenceFails | VerseRef.ts:249-254 | a failing first reference fails with its own error |
| GrammarProperties.OperatorAfterOperator | VerseRef.ts:265-271 | a second operator straight after one fails with MultipleOperators |
| GrammarProperties.RunTwoOperators | VerseRef.ts:265-271 | two operator tokens in a row make the fold fail with MultipleOperators |
| GrammarProperties.ConsecutiveOperatorsFail | VerseRef.ts:265-271 | two operators in a row fail the resolution, with MultipleOperators unless an earlier token already failed |
| GrammarProperties.ExpansionFailureIsFinal | VerseRef.ts:284-287 | a failing expansion anywhere fails the resolution with that error |
| GrammarProperties.DashAfterRangeFails | VerseRef.ts:289-295 | after a closed range nothing is pending, so a further `-` then fails, with DashWithoutContext when the reference itself expands |
| GrammarProperties.CommaKeepsLevel | VerseRef.ts:273-275 | after `,` a reference is handled as if no operator was seen |
| GrammarProperties.SemicolonLowersVerseLevel | VerseRef.ts:276-283 | after `;` verse level becomes chapter level and otherwise nothing changes |
| GrammarProperties.SeparateReference | VerseRef.ts:355-360 | without `-`, the pending span is emitted and the new span becomes pending and context, at its own level |
| GrammarProperties.SemicolonNumberIsChapter | VerseRef.ts:276-283 | after `;` at verse level a bare number is a whole chapter of the context's book |
| GrammarProperties.CommaNumberIsVerse | VerseRef.ts:273-275 | after `,` at verse level a bare number is a verse of the context's last chapter |
| GrammarProperties.SameBookRange | VerseRef.ts:296-319 | an in-book range fails when it starts in an earlier chapter (RangeStartsBeforeContext), or ends in the same chapter at an earlier verse (RangeEndsAfterContext), and succeeds exactly otherwise; the merged span runs from the pending start to the expanded end and becomes the context |
| GrammarProperties.MergeForward | VerseRef.ts:298-317 | joining a one-chapter span to a forward span that passed both checks gives a forward span |
| GrammarProperties.SameBookRangeForward | VerseRef.ts:296-319 | an accepted in-book range from a one-chapter span to a forward span runs forward |
| BookAbbreviations.Stripped | BookAbbreviations.ts:39 | the name with every U+0020 removed; its contract is in `StrippedSpaces` and `StrippedConcat` |
| BookAbbreviations.StrippedConcat | BookAbbreviations.ts:39 | stripping distributes over concatenation, so the kept characters keep their order |
| BookAbbreviations.StrippedSpaces | BookAbbreviations.ts:39 | removing spaces leaves no space, never lengthens, is the identity on space-free names and shortens names with a space |
| BookAbbreviations.AllDigits | BookAbbreviations.ts:27 | `/^\d+$/`: one or more ASCII digits and nothing else; stated through `Kept` by `CandidatesIff` and `NumberedBookCandidates` |
| BookAbbreviations.EndsWithSpace | BookAbbreviations.ts:28 | `/^.* $/`: a final space with no line terminator before it; stated through `Kept` by `CandidatesIff` and `NumberedBookCandidates` |
| BookAbbreviations.Kept | BookAbbreviations.ts:45 | a candidate survives when it matches neither filter; stated by `CandidatesIff`, `FilteredNeverAdded` and `NumberedBookCandidates` |
| BookAbbreviations.Prefixes | BookAbbreviations.ts:32-36 | the proper prefixes `gen` adds, the empty one included; stated by `Gen` and `CandidatesIff` |
| BookAbbreviations.Candidates | BookAbbreviations.ts:30-49 | the strings `abbrev_map` hands to its action; stated by `AbbrevMap` and `CandidatesIff` |
| BookAbbreviations.Occurrences | BookAbbreviations.ts:58-63 | the value of `abbrevcount` for a string after k books: never more than k; `OccurrencesZero`, `OccurrencesOne` and `OccurrencesTwo` say what each count means |
| BookAbbreviations.UniqueCandidates | BookAbbreviations.ts:68-73 | the candidates of a book whose count is one; stated by `UniqueCandidatesIff` and `UniqueCandidatesDisjoint` |
| BookAbbreviations.Gen | BookAbbreviations.ts:32-36 | adds exactly the proper prefixes (the empty one included) |
| BookAbbreviations.AbbrevMap | BookAbbreviations.ts:30-49 | the strings handed to the per-candidate action are exactly `Candidates`: the kept prefixes of the name and, if it has spaces, of the stripped name |
| BookAbbreviations.CandidatesIff | BookAbbreviations.ts:30-49 | a string is a candidate exactly when it passes both filters and is a proper prefix of the name or, when they differ, of the stripped name |
| BookAbbreviations.CountCandidates | BookAbbreviations.ts:58-63 | every candidate is counted once more, and no other entry changes |
| BookAbbreviations.OccurrencesZero | BookAbbreviations.ts:51-64 | a count of zero means no book yields the string |
| BookAbbreviations.OccurrencesOne | BookAbbreviations.ts:51-64 | a count of one means exactly one book yields it |
| BookAbbreviations.OccurrencesTwo | BookAbbreviations.ts:51-64 | two books yielding it count it at least twice |
| BookAbbreviations.OccurrencesOneAt | BookAbbreviations.ts:51-64 | for a string book j yields, a count of one means no other book yields it |
| BookAbbreviations.CountsStep | BookAbbreviations.ts:58-63 | counting one more book keeps the count map exact |
| BookAbbreviations.CountBook | BookAbbreviations.ts:58-63 | one book of the first pass keeps the count map exact |
| BookAbbreviations.BaseEntriesAndCounts | BookAbbreviations.ts:51-64 | the first pass gives each book its name and stripped name, and counts, for every candidate, the books that yield it |
| BookAbbreviations.UniqueFromCounts | BookAbbreviations.ts:68-73 | over the finished count, a count of one means exactly one book |
| BookAbbreviations.UniqueOfBook | BookAbbreviations.ts:68-73 | a book's candidates with count one are its unique candidates |
| BookAbbreviations.AddUnique | BookAbbreviations.ts:68-73 | adds exactly the candidates whose count is one |
| BookAbbreviations.UniqueEntry | BookAbbreviations.ts:67-73 | one book of the second pass: its entry grows by exactly its unique candidates |
| BookAbbreviations.UniqueAddedStep | BookAbbreviations.ts:66-74 | the second pass keeps its invariant book by book |
| BookAbbreviations.AddUniqueCandidates | BookAbbreviations.ts:66-74 | the second pass gives each book its unique candidates and keeps the keys |
| BookAbbreviations.AddRow | BookAbbreviations.ts:82-84 | adds every string of the alias row |
| BookAbbreviations.AddAliasRows | BookAbbreviations.ts:76-85 | rows for names not in the index are skipped, the keys stay the same, and each entry gains the aliases of its rows |
| BookAbbreviations.AddAliases | BookAbbreviations.ts:76-85 | the curated table is applied to the index |
| BookAbbreviations.ExtraAbbreviations | BookAbbreviations.ts:3-21 | the 17 rows of the curated alias table, in source order; `AliasNamesDistinct` and `AliasesOf` state it |
| BookAbbreviations.AliasesIn | BookAbbreviations.ts:76-85 | the aliases the first k rows give a book; stated by `AliasesInRow` and `AliasesInNone` |
| BookAbbreviations.Aliases | BookAbbreviations.ts:76-85 | the aliases the whole table gives a book; stated by `AliasesOf` |
| BookAbbreviations.AliasNamesDistinct | BookAbbreviations.ts:3-21 | the table is an object literal: no book heads two rows |
| BookAbbreviations.AliasesOf | BookAbbreviations.ts:76-85 | a book the table names gets exactly its row's aliases, and any other book gets none |
| BookAbbreviations.AliasesInRow | BookAbbreviations.ts:3-21 | a book named by exactly one row gets exactly that row |
| BookAbbreviations.AliasesInNone | BookAbbreviations.ts:3-21 | a book no row names gets no alias |
| BookAbbreviations.AbbreviationIndex | BookAbbreviations.ts:23-88 | the index as a function of the catalog; stated by `IndexKeys`, `NameAndStrippedName`, `EntryContents` and `UniqueCandidatesDisjoint` |
| BookAbbreviations.GenerateAbbreviations | BookAbbreviations.ts:23-88 | the builder returns `AbbreviationIndex`: per book name, name, stripped name, unique candidates and aliases |
| BookAbbreviations.IndexKeys | BookAbbreviations.ts:51-53 | the index has an entry exactly for each catalog book name |
| BookAbbreviations.NameAndStrippedName | BookAbbreviations.ts:54-57 | a book is always known by its name and its name without spaces |
| BookAbbreviations.UniqueCandidatesIff | BookAbbreviations.ts:66-74 | a string is a unique candidate of book j exactly when j yields it and no other book does |
| BookAbbreviations.EntryContents | BookAbbreviations.ts:23-88 | beyond name, stripped name and aliases, an entry holds exactly the candidates no other book yields |
| BookAbbreviations.UniqueCandidatesDisjoint | BookAbbreviations.ts:66-74 | no prefix-derived abbreviation is given to two books |
| BookAbbreviations.FilteredNeverAdded | BookAbbreviations.ts:27-28 | a digit string, or one ending in a space, is in an entry only as the name, the stripped name or an alias |
| BookAbbreviations.EmptyIsCandidate | BookAbbreviations.ts:33-34 | every non-empty name yields the empty string as a candidate |
| BookAbbreviations.EmptyNeverAdded | BookAbbreviations.ts:66-74 | with two non-empty names, the empty string is no book's unique candidate |
| VerseComparison.CompareResult.Value | VerseComparison.ts:3-7 | BEFORE, EQUAL and AFTER are -1, 0 and 1 |
| VerseComparison.ChapterVerseCompare | VerseComparison.ts:14-27 | BEFORE exactly when the first position is lexicographically earlier, AFTER exactly when it is later |
| VerseComparison.ChapterVerseStart | VerseComparison.ts:28-30 | the start position is the span's start chapter and verse; the ensures is the one-line projection itself, and `SingleVerseSpan` gives it meaning |
| VerseComparison.ChapterVerseEnd | VerseComparison.ts:31-33 | the end position is the span's end chapter and verse; the ensures is the one-line projection itself, and `SingleVerseSpan` gives it meaning |
| VerseComparison.CompareIsLexicographic | VerseComparison.ts:14-27 | BEFORE and AFTER are the lexicographic order on (chapter, verse); the chapter decides when it differs |
| VerseComparison.CompareEqualIff | VerseComparison.ts:14-27 | EQUAL exactly when both positions agree |
| VerseComparison.CompareAntisymmetric | VerseComparison.ts:14-27 | swapping the arguments negates the value |
| VerseComparison.CompareTransitive | VerseComparison.ts:14-27 | the strict and non-strict orders are transitive |
| VerseComparison.SingleVerseSpan | VerseComparison.ts:14-33 | a span's start and end compare EQUAL exactly when it is one verse |
| Examples.SemicolonExample | VerseRef.test.ts:525-544 | after `1:4;` a bare number is a whole chapter |
| Examples.CommaExample | VerseRef.test.ts:504-523 | `Matthew 1:4,6` is verse 4 and verse 6 of chapter 1 |
| Examples.BackwardsVerseRangeExample | VerseRef.test.ts:476-478 | `Matthew 2:8-6` fails |
| Examples.ChapterCrossingExample | VerseRef.test.ts:428-438 | `Matthew 2:4ff-3:9` is one span from 2:4 to 3:9 |
| Examples.MatthewToLukeStep | VerseRef.ts:320-352 | the dash step of `Matthew - Luke` emits Matthew, Mark and Luke whole |
| Examples.BookRangeExample | VerseRef.test.ts:127-167 | a range of books yields every book from the first to the last, whole |
| Examples.ReversedBookRangeExample | VerseRef.ts:320-324 | `Mark - Matthew` fails with the corrected guard |
| Examples.ReversedBookRangeAsWrittenExample | VerseRef.ts:321-324 | with the guard as written `Mark - Matthew` yields Mark, Luke and a span named Matthew |
| Examples.TwoOperatorsExample | VerseRef.test.ts:115-125 | `,;` in a row fails |
| Examples.GospelAliases | BookAbbreviations.ts:13-14 | Matthew's alias is `Mt` and Mark's is `Mk` |
| Examples.MatCandidate | BookAbbreviations.ts:30-49 | `Mat` is a candidate of Matthew and not of Mark |
| Examples.MaCandidate | BookAbbreviations.ts:30-49 | `Ma` is a candidate of both |
| Examples.MCandidate | BookAbbreviations.ts:30-49 | `M` is a candidate of Mark |
| Examples.AmbiguousPrefixExample | VerseRef.test.ts:181-200 | with Matthew and Mark, `Mat` names Matthew, while `Ma` and `M` name neither |
| Examples.NumberedBookCandidates | BookAbbreviations.ts:27-45 | for `1 John`, `1` and `1 ` are dropped by the filters, while `1 J` and, from the stripped name, `1J` are candidates |
| Examples.MatInMatthew | VerseRef.test.ts:181-195 | `Mat` is in Matthew's entry |
| Examples.MaInNeither | VerseRef.test.ts:197-200 | `Ma` is in neither entry |
| Examples.MNotInMatthew | VerseRef.test.ts:197-200 | `M` is not in Matthew's entry |
| Examples.UniqueInEntry | BookAbbreviations.ts:66-74 | with two books, a candidate only one of them yields is in its entry |
| Examples.SharedNotInEntry | BookAbbreviations.ts:66-74 | with two books, a candidate both yield is in neither entry (unless it is a name or alias) |

## Left out

- The tokenizer is not part of this model. That covers `makeLanguage` in
  VerseRefParser.ts and the Parsimmon library. `makeParser`, `parseReference` and
  its `trim` (VerseRef.ts:375-393) are left out with it. The grammar takes the
  token sequence the tokenizer would deliver.
- Test expectations that only the tokenizer can meet are not captured. The
  tokenizer resolves abbreviations into book names, refuses `3 ` and refuses a
  verse 0 (`Matthew 2:0`). The expander itself does not check verse numbers
  against the chapter.
- The wording of error messages (and the parser's line/column message) is left
  out. Errors are the constructors of `VerseRef.Error`, one per source message.
- `VerseInfo.gaps` is left out: the resolution logic never reads it.
- The bundled NETBible catalog, `index.ts` (re-exports) and `scripts/build_npm.ts`
  are left out. They are data and packaging. The scenarios use a small gospel
  catalog instead.
- VerseRef.ExpandAbsoluteRef, and everything that calls it, requires
  `ChaptersPresent` of every catalog book. The source throws whenever a book
  without chapters is expanded at all: `book2sbc` runs before the switch on the
  reference kind (VerseRef.ts:47) and reads `chapters[0].chapter`
  (VerseRef.ts:31-35), and contextual references reach it too. It also throws
  when such a book ends a cross-book range (VerseRef.ts:348). The model requires
  chapters of every catalog book, including books never referenced, and does not
  model the throw.
- VerseRefGrammar.CrossBookRange implements the corrected cross-book guard, not
  the source's `bookRange.length < 2` (VerseRef.ts:322). A reversed range whose
  start book is not the last of the catalog is refused here, and the source
  accepts it (see "## Findings"). The source's behaviour is modelled by
  `CrossBookMergeAsWritten`.
- VerseRefGrammar.StepExpanded resolves a cross-book `-` with `CrossBookMerge`,
  the corrected guard, and so refuses the same reversed ranges.
- VerseRefGrammar.Step uses the corrected guard through `StepExpanded`.
- VerseRefGrammar.Run folds the corrected `Step`.
- VerseRefGrammar.Grammar resolves with the corrected guard, so `Mark - Matthew`
  fails where the source returns three spans.
- VerseRefGrammar.ApplyToken uses the corrected guard through `CrossBookRange`,
  and differs from the source's loop body on the same reversed ranges.
- VerseRefGrammar.ApplyGrammar uses the corrected guard too. For `Mark - Matthew`
  over Matthew, Mark, Luke and John it returns
  `Err(BookRangeOutOfSequence)`, and the source returns three spans.
- Lemmas that look a book up by its catalog position require `ValidCatalog`
  (unique names).
- The first token is assumed to be an absolute reference (`StartsWithAbsolute`),
  as the tokenizer's grammar guarantees. The source casts it without checking.
- The per-candidate callback of `abbrev_map` (BookAbbreviations.ts:30) is left
  out. `AbbrevMap` returns the candidate set, and the two passes apply their
  action to it. A JavaScript `Set` visits each element once, and both actions
  commute, so the visiting order does not matter.
- Strings are sequences of `char`. JavaScript works on UTF-16 code units, and no
  case folding or normalisation is involved. `IsDigit` is the ASCII `\d`, and
  `.` in `/^.* $/` excludes the four line terminators.
- Numbers are unbounded integers. The source uses floating-point numbers, but
  only compares and adds small integers.

## Findings

| source | as written | input that shows it | evidently intended | confidence | as-written member | corrected member |
|---|---|---|---|---|---|---|
| VerseRef.ts:321-324 | a cross-book range is refused only when `BookRange` returns fewer than two books | `Mark - Matthew` over the catalog Matthew, Mark, Luke, John: `BookRange` from Mark never meets Matthew, so it runs to the end of the catalog. The result is Mark, Luke, and a span named Matthew that starts at John's first chapter. | a range whose end book comes before its start book fails with "Book range out of sequence." | not executed | VerseRefGrammar.CrossBookMergeAsWritten, GrammarProperties.ReversedRangeAsWritten, Examples.ReversedBookRangeAsWrittenExample | VerseRefGrammar.CrossBookMerge, GrammarProperties.CrossBookMergeForwardIff, Examples.ReversedBookRangeExample |

The corrected guard also refuses a range that does not end at the expanded book.
`Step`, `Grammar` and the methods all use `CrossBookMerge`, so the model follows
the corrected guard.
