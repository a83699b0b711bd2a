/** The abbreviation index: for every book of the catalog, the set of strings
    that identify it. A book is known by its full name, its name without
    spaces, every proper prefix of either that no other book also yields,
    and a short list of curated aliases. */
module BookAbbreviations {
  import opened Types

  /** The curated aliases, keyed by book name, in the order of the table. */
  const ExtraAbbreviations: seq<(string, seq<string>)> := [
    ("Ecclesiastes", ["Qoheleth", "Qoh"]),
    ("Habakkuk", ["Hah"]),
    ("Judith", ["Jdt"]),
    ("Esther (Greek)", ["Add Esth"]),
    ("The Wisdom of Solomon", ["Wis"]),
    ("The Letter of Jeremiah", ["Let Jer"]),
    ("Azariah and the Three Jews", ["Song of Thr"]),
    ("The Prayer of Manasseh", ["Pr Man"]),
    ("Psalm 151", ["Ps 151"]),
    ("Matthew", ["Mt"]),
    ("Mark", ["Mk"]),
    ("Luke", ["Lk"]),
    ("John", ["Jn"]),
    ("James", ["Jas"]),
    ("1 John", ["1 Jn"]),
    ("2 John", ["2 Jn"]),
    ("3 John", ["3 Jn"])
  ]

  // ---------------------------------------------------------------------
  // Strings and character classes.

  /** The string with every U+0020 space removed (other white space stays). */
  function Stripped(s: string): string
  {
    if |s| == 0 then ""
    else if s[|s| - 1] == ' ' then Stripped(s[..|s| - 1])
    else Stripped(s[..|s| - 1]) + [s[|s| - 1]]
  }

  /** Stripping keeps every character but the spaces, so the result is no
      longer, holds no space, is the string itself when it had none, and is
      strictly shorter when it had one. */
  lemma {:induction false} StrippedSpaces(s: string)
    ensures |Stripped(s)| <= |s|
    ensures forall i | 0 <= i < |Stripped(s)| :: Stripped(s)[i] != ' '
    ensures (forall i | 0 <= i < |s| :: s[i] != ' ') ==> Stripped(s) == s
    ensures (exists i | 0 <= i < |s| :: s[i] == ' ') ==> |Stripped(s)| < |s|
  {
    if |s| > 0 {
      var init := s[..|s| - 1];
      StrippedSpaces(init);
      assert forall i | 0 <= i < |s| - 1 :: init[i] == s[i];
      if s[|s| - 1] != ' ' {
        assert forall i | 0 <= i < |Stripped(init)| :: Stripped(s)[i] == Stripped(init)[i];
        assert (forall i | 0 <= i < |s| :: s[i] != ' ') ==> s == init + [s[|s| - 1]];
      }
    }
  }

  /** Stripping works character by character: the stripped concatenation is
      the concatenation of the stripped parts, so the kept characters stay in
      their order. */
  lemma {:induction false} StrippedConcat(a: string, b: string)
    ensures Stripped(a + b) == Stripped(a) + Stripped(b)
  {
    if |b| > 0 {
      var init := b[..|b| - 1];
      StrippedConcat(a, init);
      assert (a + b)[..|a + b| - 1] == a + init;
      assert (a + b)[|a + b| - 1] == b[|b| - 1];
    } else {
      assert a + b == a;
    }
  }

  /** An ASCII decimal digit, the class \d of a regular expression without the unicode flag. */
  predicate IsDigit(c: char)
  {
    '0' <= c <= '9'
  }

  /** The characters a regular-expression "." does not match. */
  predicate IsLineTerminator(c: char)
  {
    c == '\n' || c == '\r' || c == '\U{2028}' || c == '\U{2029}'
  }

  /** Matches /^\d+$/: one or more digits and nothing else. */
  predicate AllDigits(a: string)
  {
    |a| > 0 && forall i | 0 <= i < |a| :: IsDigit(a[i])
  }

  /** Matches /^.* $/: ends in a space, with no line terminator before it. */
  predicate EndsWithSpace(a: string)
  {
    |a| > 0 && a[|a| - 1] == ' ' && forall i | 0 <= i < |a| - 1 :: !IsLineTerminator(a[i])
  }

  /** Numbers clash with chapter and verse numbers, and a trailing space
      with the separator, so such candidates are dropped. */
  predicate Kept(a: string)
  {
    !AllDigits(a) && !EndsWithSpace(a)
  }

  // ---------------------------------------------------------------------
  // Candidates of one name.

  /** The proper prefixes of s, the empty string included. */
  function Prefixes(s: string): set<string>
  {
    set i | 0 <= i < |s| :: s[..i]
  }

  /** The prefixes of the name and, when it has spaces, of the stripped name. */
  function Generated(s: string): set<string>
  {
    Prefixes(s) + (if Stripped(s) != s then Prefixes(Stripped(s)) else {})
  }

  /** The candidate abbreviations a name contributes, each counted once. */
  function Candidates(s: string): set<string>
  {
    set a | a in Generated(s) && Kept(a)
  }

  // ---------------------------------------------------------------------
  // Counting candidates over the catalog.

  /** Each book's candidates, in catalog order. */
  function CandidateSets(books: seq<BookInfo>): (r: seq<set<string>>)
    ensures |r| == |books|
  {
    seq(|books|, j requires 0 <= j < |books| => Candidates(books[j].name))
  }

  /** How many of the first k candidate sets contain a. */
  function Occurrences(sets: seq<set<string>>, k: nat, a: string): (n: nat)
    requires k <= |sets|
    ensures n <= k
  {
    if k == 0 then 0
    else Occurrences(sets, k - 1, a) + (if a in sets[k - 1] then 1 else 0)
  }

  /** The counting map holds, for every candidate seen in the first k sets,
      the number of those sets that contain it, and nothing else. */
  ghost predicate CountsUpTo(sets: seq<set<string>>, k: nat, counts: map<string, int>)
    requires k <= |sets|
  {
    forall a :: (a in counts <==> Occurrences(sets, k, a) > 0) && (a in counts ==> counts[a] == Occurrences(sets, k, a))
  }

  /** No set among the first k contains a exactly when the count is zero. */
  lemma {:induction false} OccurrencesZero(sets: seq<set<string>>, k: nat, a: string)
    requires k <= |sets|
    ensures Occurrences(sets, k, a) == 0 <==> forall q | 0 <= q < k :: a !in sets[q]
  {
    if k > 0 {
      OccurrencesZero(sets, k - 1, a);
    }
  }

  /** Exactly one set among the first k contains a when the count is one. */
  lemma {:induction false} OccurrencesOne(sets: seq<set<string>>, k: nat, a: string)
    requires k <= |sets|
    ensures Occurrences(sets, k, a) == 1 <==>
              exists j | 0 <= j < k :: a in sets[j] && forall q | 0 <= q < k && q != j :: a !in sets[q]
  {
    if k > 0 {
      OccurrencesOne(sets, k - 1, a);
      OccurrencesZero(sets, k - 1, a);
      if Occurrences(sets, k, a) == 1 {
        if a in sets[k - 1] {
          assert forall q | 0 <= q < k - 1 :: a !in sets[q];
        } else {
          var j :| 0 <= j < k - 1 && a in sets[j] && forall q | 0 <= q < k - 1 && q != j :: a !in sets[q];
          assert forall q | 0 <= q < k && q != j :: a !in sets[q];
        }
      }
      if exists j | 0 <= j < k :: a in sets[j] && forall q | 0 <= q < k && q != j :: a !in sets[q] {
        var j :| 0 <= j < k && a in sets[j] && forall q | 0 <= q < k && q != j :: a !in sets[q];
        if j < k - 1 {
          assert forall q | 0 <= q < k - 1 && q != j :: a !in sets[q];
        }
      }
    }
  }

  /** Two different sets that both contain a count it at least twice. */
  lemma {:induction false} OccurrencesTwo(sets: seq<set<string>>, k: nat, a: string, i: nat, j: nat)
    requires k <= |sets| && i < j < k
    requires a in sets[i] && a in sets[j]
    ensures Occurrences(sets, k, a) >= 2
  {
    OccurrencesZero(sets, k - 1, a);
    if j < k - 1 {
      OccurrencesTwo(sets, k - 1, a, i, j);
    }
  }

  /** Counting one more book's candidates keeps the counting map exact. */
  lemma CountsStep(sets: seq<set<string>>, k: nat, counts: map<string, int>, r: map<string, int>)
    requires k < |sets| && CountsUpTo(sets, k, counts)
    requires forall a :: a in r <==> a in counts || a in sets[k]
    requires forall a | a in r :: r[a] == (if a in counts then counts[a] else 0) + (if a in sets[k] then 1 else 0)
    ensures CountsUpTo(sets, k + 1, r)
  {
  }

  /** Over the finished count, "count is one" is "exactly one book". */
  lemma UniqueFromCounts(sets: seq<set<string>>, counts: map<string, int>, cands: set<string>)
    requires CountsUpTo(sets, |sets|, counts)
    ensures (set a | a in cands && a in counts && counts[a] == 1) == (set a | a in cands && Occurrences(sets, |sets|, a) == 1)
  {
  }

  // ---------------------------------------------------------------------
  // The index, as a function of the catalog.

  function BookNames(books: seq<BookInfo>, k: nat): set<string>
    requires k <= |books|
  {
    set j | 0 <= j < k :: books[j].name
  }

  /** What every book gets without any check: its name and its stripped name. */
  function BaseEntry(name: string): set<string>
  {
    {name, Stripped(name)}
  }

  /** The candidates of the name that exactly one book of the catalog yields. */
  function UniqueCandidates(books: seq<BookInfo>, name: string): set<string>
  {
    set a | a in Candidates(name) && Occurrences(CandidateSets(books), |books|, a) == 1
  }

  function Elements(xs: seq<string>): set<string>
  {
    set i | 0 <= i < |xs| :: xs[i]
  }

  /** The aliases the first k rows of an alias table attach to the name. */
  function AliasesIn(table: seq<(string, seq<string>)>, name: string, k: nat): set<string>
    requires k <= |table|
  {
    if k == 0 then {}
    else AliasesIn(table, name, k - 1) + (if table[k - 1].0 == name then Elements(table[k - 1].1) else {})
  }

  function Aliases(name: string): set<string>
  {
    AliasesIn(ExtraAbbreviations, name, |ExtraAbbreviations|)
  }

  /** The index the builder returns. */
  function AbbreviationIndex(books: seq<BookInfo>): map<string, set<string>>
  {
    map name | name in BookNames(books, |books|) :: BaseEntry(name) + UniqueCandidates(books, name) + Aliases(name)
  }

  // ---------------------------------------------------------------------
  // The builder.

  /** Adds the proper prefixes of s, longest first. */
  method Gen(s: string, abbrevs: set<string>) returns (r: set<string>)
    ensures r == abbrevs + Prefixes(s)
  {
    r := abbrevs;
    var i := |s| - 1;
    while i >= 0
      invariant -1 <= i < |s|
      invariant r == abbrevs + set q | i < q < |s| :: s[..q]
      decreases i + 1
    {
      r := r + {s[..i]};
      i := i - 1;
    }
  }

  /** The candidates of a name: generated prefixes that pass both filters.
      The builder then applies its per-candidate action to each of them. */
  method AbbrevMap(s: string) returns (r: set<string>)
    ensures r == Candidates(s)
  {
    var abbrevs := Gen(s, {});
    var ns := Stripped(s);
    if s != ns {
      abbrevs := Gen(ns, abbrevs);
    }
    r := {};
    var rest := abbrevs;
    while rest != {}
      invariant rest <= abbrevs
      invariant r == set a | a in abbrevs - rest && Kept(a)
      decreases rest
    {
      var a :| a in rest;
      if !AllDigits(a) && !EndsWithSpace(a) {
        r := r + {a};
      }
      rest := rest - {a};
    }
  }

  /** Counts one book's candidates: each seen once more. */
  method CountCandidates(counts: map<string, int>, cands: set<string>) returns (r: map<string, int>)
    ensures forall a :: a in r <==> a in counts || a in cands
    ensures forall a | a in r :: r[a] == (if a in counts then counts[a] else 0) + (if a in cands then 1 else 0)
  {
    r := counts;
    var rest := cands;
    while rest != {}
      invariant rest <= cands
      invariant forall a :: a in r <==> a in counts || a in cands - rest
      invariant forall a | a in r :: r[a] == (if a in counts then counts[a] else 0) + (if a in cands - rest then 1 else 0)
      decreases rest
    {
      var a :| a in rest;
      if a !in r {
        r := r[a := 0];
      }
      r := r[a := r[a] + 1];
      rest := rest - {a};
    }
  }

  /** Adds the candidates whose count is exactly one. */
  method AddUnique(abbrevs: set<string>, cands: set<string>, counts: map<string, int>) returns (r: set<string>)
    ensures r == abbrevs + set a | a in cands && a in counts && counts[a] == 1
  {
    r := abbrevs;
    var rest := cands;
    while rest != {}
      invariant rest <= cands
      invariant r == abbrevs + set a | a in cands - rest && a in counts && counts[a] == 1
      decreases rest
    {
      var a :| a in rest;
      if a in counts && counts[a] == 1 {
        r := r + {a};
      }
      rest := rest - {a};
    }
  }

  /** Adds the strings of one row, one by one. */
  method AddRow(abbrevs: set<string>, extra: seq<string>) returns (r: set<string>)
    ensures r == abbrevs + Elements(extra)
  {
    r := abbrevs;
    for e := 0 to |extra|
      invariant r == abbrevs + Elements(extra[..e])
    {
      assert Elements(extra[..e + 1]) == Elements(extra[..e]) + {extra[e]};
      r := r + {extra[e]};
    }
    assert extra[..|extra|] == extra;
  }

  /** Attaches the rows of an alias table to the names that are in the index;
      rows for other names are skipped, and nothing is ever removed. */
  method AddAliasRows(index: map<string, set<string>>, table: seq<(string, seq<string>)>) returns (r: map<string, set<string>>)
    ensures r.Keys == index.Keys
    ensures forall name | name in r :: r[name] == index[name] + AliasesIn(table, name, |table|)
  {
    r := index;
    for k := 0 to |table|
      invariant r.Keys == index.Keys
      invariant forall name | name in r :: r[name] == index[name] + AliasesIn(table, name, k)
    {
      var (book, extra) := table[k];
      if book !in r {
        continue;
      }
      var abbrevs := AddRow(r[book], extra);
      r := r[book := abbrevs];
    }
  }

  /** The curated aliases attached to the index. */
  method AddAliases(index: map<string, set<string>>) returns (r: map<string, set<string>>)
    ensures r.Keys == index.Keys
    ensures forall name | name in r :: r[name] == index[name] + Aliases(name)
  {
    r := AddAliasRows(index, ExtraAbbreviations);
  }

  lemma BookNamesNext(books: seq<BookInfo>, i: nat)
    requires i < |books|
    ensures BookNames(books, i + 1) == BookNames(books, i) + {books[i].name}
  {
    assert forall name | name in BookNames(books, i + 1) :: name in BookNames(books, i) + {books[i].name};
  }

  /** The first pass: every book gets its base entry, and every candidate its count. */
  method BaseEntriesAndCounts(books: seq<BookInfo>) returns (index: map<string, set<string>>, counts: map<string, int>)
    ensures index.Keys == BookNames(books, |books|)
    ensures forall name | name in index :: index[name] == BaseEntry(name)
    ensures CountsUpTo(CandidateSets(books), |books|, counts)
  {
    ghost var sets := CandidateSets(books);
    index := map[];
    counts := map[];
    for i := 0 to |books|
      invariant index.Keys == BookNames(books, i)
      invariant forall name | name in index :: index[name] == BaseEntry(name)
      invariant CountsUpTo(sets, i, counts)
    {
      var book := books[i];
      BookNamesNext(books, i);
      index := index[book.name := {book.name} + {Stripped(book.name)}];
      counts := CountBook(books, i, counts);
    }
  }

  /** One book of the first pass: its candidates, each counted once more. */
  method CountBook(books: seq<BookInfo>, i: nat, counts: map<string, int>) returns (next: map<string, int>)
    requires i < |books| && CountsUpTo(CandidateSets(books), i, counts)
    ensures CountsUpTo(CandidateSets(books), i + 1, next)
  {
    var cands := AbbrevMap(books[i].name);
    next := CountCandidates(counts, cands);
    CountsStep(CandidateSets(books), i, counts, next);
  }

  /** After the second pass has seen the first i books. */
  ghost predicate UniqueAddedUpTo(books: seq<BookInfo>, i: nat, index: map<string, set<string>>)
    requires i <= |books|
  {
    forall name | name in index ::
      index[name] == BaseEntry(name) + (if name in BookNames(books, i) then UniqueCandidates(books, name) else {})
  }

  /** The candidates of one book with count one are its unique candidates. */
  lemma UniqueOfBook(books: seq<BookInfo>, counts: map<string, int>, name: string)
    requires CountsUpTo(CandidateSets(books), |books|, counts)
    ensures (set a | a in Candidates(name) && a in counts && counts[a] == 1) == UniqueCandidates(books, name)
  {
    UniqueFromCounts(CandidateSets(books), counts, Candidates(name));
  }

  lemma UniqueAddedStep(books: seq<BookInfo>, i: nat, index: map<string, set<string>>)
    requires i < |books| && UniqueAddedUpTo(books, i, index) && books[i].name in index
    ensures UniqueAddedUpTo(books, i + 1,
                            index[books[i].name := BaseEntry(books[i].name) + UniqueCandidates(books, books[i].name)])
  {
    BookNamesNext(books, i);
  }

  /** The second pass: every book gets its candidates whose count is exactly one. */
  method AddUniqueCandidates(books: seq<BookInfo>, base: map<string, set<string>>, counts: map<string, int>)
    returns (index: map<string, set<string>>)
    requires base.Keys == BookNames(books, |books|)
    requires forall name | name in base :: base[name] == BaseEntry(name)
    requires CountsUpTo(CandidateSets(books), |books|, counts)
    ensures index.Keys == base.Keys
    ensures forall name | name in index :: index[name] == BaseEntry(name) + UniqueCandidates(books, name)
  {
    index := base;
    for i := 0 to |books|
      invariant index.Keys == base.Keys
      invariant UniqueAddedUpTo(books, i, index)
    {
      var book := books[i];
      assert book.name in BookNames(books, |books|);
      var abbrevs := UniqueEntry(books, counts, book.name, index[book.name]);
      UniqueAddedStep(books, i, index);
      index := index[book.name := abbrevs];
    }
  }

  /** One book of the second pass: its base entry grows by its candidates counted once. */
  method UniqueEntry(books: seq<BookInfo>, counts: map<string, int>, name: string, base: set<string>)
    returns (abbrevs: set<string>)
    requires CountsUpTo(CandidateSets(books), |books|, counts)
    ensures abbrevs == base + UniqueCandidates(books, name)
  {
    var cands := AbbrevMap(name);
    UniqueOfBook(books, counts, name);
    abbrevs := AddUnique(base, cands, counts);
  }

  method GenerateAbbreviations(books: seq<BookInfo>) returns (index: map<string, set<string>>)
    ensures index == AbbreviationIndex(books)
  {
    var base, counts := BaseEntriesAndCounts(books);
    index := AddUniqueCandidates(books, base, counts);
    index := AddAliases(index);
  }

  // ---------------------------------------------------------------------
  // What the index guarantees.

  /** One entry per catalog book name, and no other. */
  lemma IndexKeys(books: seq<BookInfo>, name: string)
    ensures name in AbbreviationIndex(books) <==> exists j | 0 <= j < |books| :: books[j].name == name
  {
    if exists j | 0 <= j < |books| :: books[j].name == name {
      var j :| 0 <= j < |books| && books[j].name == name;
      assert name in BookNames(books, |books|);
    }
  }

  /** A book is always known by its full name and by its name without spaces,
      whatever other books are called. */
  lemma NameAndStrippedName(books: seq<BookInfo>, j: nat)
    requires j < |books|
    ensures books[j].name in AbbreviationIndex(books)
    ensures books[j].name in AbbreviationIndex(books)[books[j].name]
    ensures Stripped(books[j].name) in AbbreviationIndex(books)[books[j].name]
  {
    assert books[j].name in BookNames(books, |books|);
  }

  /** Over sets that include set j, a count of one means no other set holds a. */
  lemma OccurrencesOneAt(sets: seq<set<string>>, j: nat, a: string)
    requires j < |sets| && a in sets[j]
    ensures Occurrences(sets, |sets|, a) == 1 <==> forall q | 0 <= q < |sets| && q != j :: a !in sets[q]
  {
    OccurrencesOne(sets, |sets|, a);
    if Occurrences(sets, |sets|, a) == 1 {
      var i :| 0 <= i < |sets| && a in sets[i] && forall q | 0 <= q < |sets| && q != i :: a !in sets[q];
      assert i == j;
    }
  }

  /** A candidate of book j is unique exactly when no other book yields it. */
  lemma UniqueCandidatesIff(books: seq<BookInfo>, j: nat, a: string)
    requires j < |books|
    ensures a in UniqueCandidates(books, books[j].name) <==>
              a in Candidates(books[j].name) && forall q | 0 <= q < |books| && q != j :: a !in Candidates(books[q].name)
  {
    var sets := CandidateSets(books);
    assert forall q | 0 <= q < |books| :: sets[q] == Candidates(books[q].name);
    if a in Candidates(books[j].name) {
      OccurrencesOneAt(sets, j, a);
    }
  }

  /** What an entry holds beyond the base entry and the aliases: the
      candidates of the name that no other book yields. */
  lemma EntryContents(books: seq<BookInfo>, j: nat, a: string)
    requires j < |books|
    requires a !in BaseEntry(books[j].name) && a !in Aliases(books[j].name)
    ensures a in AbbreviationIndex(books)[books[j].name] <==>
              a in Candidates(books[j].name) && forall q | 0 <= q < |books| && q != j :: a !in Candidates(books[q].name)
  {
    NameAndStrippedName(books, j);
    assert AbbreviationIndex(books)[books[j].name] ==
             BaseEntry(books[j].name) + UniqueCandidates(books, books[j].name) + Aliases(books[j].name);
    UniqueCandidatesIff(books, j, a);
  }

  /** No prefix-derived abbreviation is ever given to two books. */
  lemma UniqueCandidatesDisjoint(books: seq<BookInfo>, i: nat, j: nat, a: string)
    requires i < |books| && j < |books| && i != j
    requires a in UniqueCandidates(books, books[i].name)
    ensures a !in Candidates(books[j].name)
    ensures a !in UniqueCandidates(books, books[j].name)
  {
    var sets := CandidateSets(books);
    if a in sets[j] {
      if i < j {
        OccurrencesTwo(sets, |books|, a, i, j);
      } else {
        OccurrencesTwo(sets, |books|, a, j, i);
      }
    }
  }

  /** A string of digits, or one ending in a space, is in an entry only as
      the name itself, the stripped name or an alias. */
  lemma FilteredNeverAdded(books: seq<BookInfo>, name: string, a: string)
    requires name in AbbreviationIndex(books) && a in AbbreviationIndex(books)[name]
    requires AllDigits(a) || EndsWithSpace(a)
    ensures a in BaseEntry(name) || a in Aliases(name)
  {
  }

  /** Every non-empty name yields the empty string as a candidate ... */
  lemma EmptyIsCandidate(s: string)
    requires |s| > 0
    ensures "" in Candidates(s)
  {
    assert s[..0] == "";
    assert "" in Generated(s);
  }

  /** ... so once two books have non-empty names, the empty string is no
      abbreviation of any book. */
  lemma EmptyNeverAdded(books: seq<BookInfo>, i: nat, j: nat, name: string)
    requires i < j < |books| && |books[i].name| > 0 && |books[j].name| > 0
    ensures "" !in UniqueCandidates(books, name)
  {
    EmptyIsCandidate(books[i].name);
    EmptyIsCandidate(books[j].name);
    OccurrencesTwo(CandidateSets(books), |books|, "", i, j);
  }

  /** The candidates of a name are exactly the kept proper prefixes of the
      name and, when it has spaces, of the stripped name. */
  lemma CandidatesIff(s: string, a: string)
    ensures a in Candidates(s) <==>
              Kept(a) &&
              ((|a| < |s| && a == s[..|a|]) ||
               (Stripped(s) != s && |a| < |Stripped(s)| && a == Stripped(s)[..|a|]))
  {
    if Kept(a) && |a| < |s| && a == s[..|a|] {
      assert a in Prefixes(s);
    }
    if Kept(a) && Stripped(s) != s && |a| < |Stripped(s)| && a == Stripped(s)[..|a|] {
      assert a in Prefixes(Stripped(s));
    }
  }

  /** A book named by exactly one row of the alias table gets exactly that
      row's aliases. */
  lemma {:induction false} AliasesInRow(table: seq<(string, seq<string>)>, name: string, k: nat, row: nat)
    requires row < k <= |table| && table[row].0 == name
    requires forall q | 0 <= q < k && q != row :: table[q].0 != name
    ensures AliasesIn(table, name, k) == Elements(table[row].1)
  {
    if k - 1 == row {
      AliasesInNone(table, name, row);
    } else {
      AliasesInRow(table, name, k - 1, row);
    }
  }

  /** The alias table is an object literal, so no book heads two rows. */
  lemma AliasNamesDistinct()
    ensures forall p, q | 0 <= p < q < |ExtraAbbreviations| :: ExtraAbbreviations[p].0 != ExtraAbbreviations[q].0
  {
  }

  /** A book the table names gets exactly the aliases of its row; any other
      book gets none. */
  lemma AliasesOf(name: string)
    ensures forall q | 0 <= q < |ExtraAbbreviations| && ExtraAbbreviations[q].0 == name ::
              Aliases(name) == Elements(ExtraAbbreviations[q].1)
    ensures (forall q | 0 <= q < |ExtraAbbreviations| :: ExtraAbbreviations[q].0 != name) ==> Aliases(name) == {}
  {
    AliasNamesDistinct();
    if row :| 0 <= row < |ExtraAbbreviations| && ExtraAbbreviations[row].0 == name {
      AliasesInRow(ExtraAbbreviations, name, |ExtraAbbreviations|, row);
    } else {
      AliasesInNone(ExtraAbbreviations, name, |ExtraAbbreviations|);
    }
  }

  /** Rows that never name the book add nothing. */
  lemma {:induction false} AliasesInNone(table: seq<(string, seq<string>)>, name: string, k: nat)
    requires k <= |table|
    requires forall q | 0 <= q < k :: table[q].0 != name
    ensures AliasesIn(table, name, k) == {}
  {
    if k > 0 {
      AliasesInNone(table, name, k - 1);
    }
  }
}
