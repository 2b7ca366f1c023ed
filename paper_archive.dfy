/** The archive page: the search-and-filter pipeline that decides which
    papers are shown, and the bookmark toggle of each paper card. */
module PaperArchive {
  import opened Seqs
  import opened Records
  import opened Text
  import opened FilterPanel
  import App

  /** The search test: the lower-cased subject contains the lower-cased term,
      or the decimal year contains the term as typed. */
  predicate MatchesSearch(p: Paper, term: string): (b: bool)
    ensures term == "" ==> b
    ensures b <== Includes(p.subject, term)
  {
    assert OccursAt(Lower(p.subject), Lower(term), 0) <== term == "";
    LowerKeepsOccurrences(p.subject, term);
    Includes(Lower(p.subject), Lower(term)) || Includes(IntToString(p.year), term)
  }

  /** The search does not see the case of the subject. */
  lemma SearchIgnoresSubjectCase(p: Paper, term: string)
    ensures MatchesSearch(p.(subject := Lower(p.subject)), term) <==> MatchesSearch(p, term)
  {
    LowerIsIdempotent(p.subject);
  }

  /** Nor the case of the search term: two terms that lower-case alike match
      the same papers. */
  lemma SearchIgnoresTermCase(p: Paper, t1: string, t2: string)
    requires Lower(t1) == Lower(t2)
    ensures MatchesSearch(p, t1) <==> MatchesSearch(p, t2)
  {
    if Includes(IntToString(p.year), t1) {
      NumeralTermIsCaseless(IntToString(p.year), t1, t2);
    }
    if Includes(IntToString(p.year), t2) {
      NumeralTermIsCaseless(IntToString(p.year), t2, t1);
    }
  }

  /** A term that occurs in a decimal numeral has no letters, so the only
      term that lower-cases like it is itself. */
  lemma NumeralTermIsCaseless(numeral: string, t: string, u: string)
    requires forall i :: 0 <= i < |numeral| ==> IsDigit(numeral[i]) || numeral[i] == '-'
    requires Includes(numeral, t) && Lower(t) == Lower(u)
    ensures t == u
  {
    var k :| OccursAt(numeral, t, k);
    forall i | 0 <= i < |t|
      ensures t[i] == u[i]
    {
      assert t[i] == numeral[k + i];
      assert LowerChar(t[i]) == t[i];
    }
  }

  /** The archive's criteria as one conjunction; an empty criterion constrains
      nothing. */
  predicate Visible(p: Paper, term: string, f: Filters) {
    && (term == "" || MatchesSearch(p, term))
    && (f.year == "" || IntToString(p.year) == f.year)
    && (f.subject == "" || p.subject == f.subject)
    && (f.difficulty == "" || p.difficulty == f.difficulty)
  }

  function VisibleUnder(term: string, f: Filters): Paper -> bool {
    (p: Paper) => Visible(p, term, f)
  }

  function Searched(term: string): Paper -> bool {
    (p: Paper) => MatchesSearch(p, term)
  }

  function YearIs(year: string): Paper -> bool {
    (p: Paper) => IntToString(p.year) == year
  }

  function SubjectIs(subject: string): Paper -> bool {
    (p: Paper) => p.subject == subject
  }

  function DifficultyIs(difficulty: string): Paper -> bool {
    (p: Paper) => p.difficulty == difficulty
  }

  /** The papers that meet `before` and then `extra` are the papers that
      meet `after`, when `after` is `before` and `extra` together. */
  lemma NarrowStep(papers: seq<Paper>, before: Paper -> bool, extra: Paper -> bool, after: Paper -> bool)
    requires forall p :: after(p) <==> before(p) && extra(p)
    ensures Filter(Filter(papers, before), extra) == Filter(papers, after)
  {
    FilterFilter(papers, before, extra, after);
  }

  lemma SearchStep(papers: seq<Paper>, term: string, f: Filters)
    requires term != ""
    ensures Filter(Filter(papers, VisibleUnder("", f)), Searched(term)) == Filter(papers, VisibleUnder(term, f))
  {
    NarrowStep(papers, VisibleUnder("", f), Searched(term), VisibleUnder(term, f));
  }

  lemma YearStep(papers: seq<Paper>, term: string, f: Filters, year: string)
    requires f.year == "" && year != ""
    ensures Filter(Filter(papers, VisibleUnder(term, f)), YearIs(year)) == Filter(papers, VisibleUnder(term, f.(year := year)))
  {
    NarrowStep(papers, VisibleUnder(term, f), YearIs(year), VisibleUnder(term, f.(year := year)));
  }

  lemma SubjectStep(papers: seq<Paper>, term: string, f: Filters, subject: string)
    requires f.subject == "" && subject != ""
    ensures Filter(Filter(papers, VisibleUnder(term, f)), SubjectIs(subject)) == Filter(papers, VisibleUnder(term, f.(subject := subject)))
  {
    NarrowStep(papers, VisibleUnder(term, f), SubjectIs(subject), VisibleUnder(term, f.(subject := subject)));
  }

  lemma DifficultyStep(papers: seq<Paper>, term: string, f: Filters, difficulty: string)
    requires f.difficulty == "" && difficulty != ""
    ensures Filter(Filter(papers, VisibleUnder(term, f)), DifficultyIs(difficulty)) == Filter(papers, VisibleUnder(term, f.(difficulty := difficulty)))
  {
    NarrowStep(papers, VisibleUnder(term, f), DifficultyIs(difficulty), VisibleUnder(term, f.(difficulty := difficulty)));
  }

  /** The filtering effect: starts from all papers and narrows `filtered` by
      each criterion that is set, in the page's order. The result is the
      papers that meet every criterion, in their original order. */
  method ApplyFilters(papers: seq<Paper>, searchTerm: string, filters: Filters) returns (filtered: seq<Paper>)
    ensures filtered == Filter(papers, VisibleUnder(searchTerm, filters))
    ensures IsSubsequence(filtered, papers)
    ensures forall p :: p in filtered <==> p in papers && Visible(p, searchTerm, filters)
    ensures |filtered| <= |papers|
  {
    // `filtered` is always the papers that meet the criteria applied so far
    ghost var term: string := "";
    ghost var applied := NoFilters;
    FilterKeepsAll(papers, VisibleUnder(term, applied));
    filtered := papers;
    if searchTerm != "" {
      SearchStep(papers, searchTerm, applied);
      term := searchTerm;
      filtered := Filter(filtered, Searched(searchTerm));
    }
    if filters.year != "" {
      YearStep(papers, term, applied, filters.year);
      applied := applied.(year := filters.year);
      filtered := Filter(filtered, YearIs(filters.year));
    }
    if filters.subject != "" {
      SubjectStep(papers, term, applied, filters.subject);
      applied := applied.(subject := filters.subject);
      filtered := Filter(filtered, SubjectIs(filters.subject));
    }
    if filters.difficulty != "" {
      DifficultyStep(papers, term, applied, filters.difficulty);
      applied := applied.(difficulty := filters.difficulty);
      filtered := Filter(filtered, DifficultyIs(filters.difficulty));
    }
    assert term == searchTerm && applied == filters;
    ShownAreVisible(papers, searchTerm, filters);
  }

  /** What the criteria show is the papers that meet all of them. */
  lemma ShownAreVisible(papers: seq<Paper>, term: string, f: Filters)
    ensures forall p :: p in Filter(papers, VisibleUnder(term, f)) <==> p in papers && Visible(p, term, f)
  {
    forall p
      ensures p in Filter(papers, VisibleUnder(term, f)) <==> p in papers && Visible(p, term, f)
    {
      assert VisibleUnder(term, f)(p) == Visible(p, term, f);
    }
  }

  /** With no search and cleared filters every paper is shown, in order. */
  lemma NoCriteriaShowsAll(papers: seq<Paper>)
    ensures Filter(papers, VisibleUnder("", NoFilters)) == papers
  {
    FilterKeepsAll(papers, VisibleUnder("", NoFilters));
  }

  /** `g` keeps every criterion `f` sets and may set more. */
  predicate Refines(g: Filters, f: Filters) {
    forall k :: Get(f, k) == "" || Get(g, k) == Get(f, k)
  }

  /** Stricter criteria never show more: what they show is a subsequence of
      what the looser ones show. */
  lemma NarrowingNeverEnlarges(papers: seq<Paper>, term: string, f: Filters, g: Filters)
    requires Refines(g, f)
    ensures IsSubsequence(Filter(papers, VisibleUnder(term, g)), Filter(papers, VisibleUnder(term, f)))
    ensures |Filter(papers, VisibleUnder(term, g))| <= |Filter(papers, VisibleUnder(term, f))|
  {
    assert Get(f, YearKey) == "" || Get(g, YearKey) == Get(f, YearKey);
    assert Get(f, SubjectKey) == "" || Get(g, SubjectKey) == Get(f, SubjectKey);
    assert Get(f, DifficultyKey) == "" || Get(g, DifficultyKey) == Get(f, DifficultyKey);
    FilterMonotone(papers, VisibleUnder(term, g), VisibleUnder(term, f));
    SubsequenceBounds(Filter(papers, VisibleUnder(term, g)), Filter(papers, VisibleUnder(term, f)));
  }

  /** Setting a filter that was unset, to any value, never enlarges the result. */
  lemma SettingAFilterNarrows(papers: seq<Paper>, term: string, f: Filters, key: FilterKey, value: string)
    requires Get(f, key) == ""
    ensures IsSubsequence(Filter(papers, VisibleUnder(term, WithFilter(f, key, value))), Filter(papers, VisibleUnder(term, f)))
  {
    NarrowingNeverEnlarges(papers, term, f, WithFilter(f, key, value));
  }

  /** Typing a search term where there was none never enlarges the result. */
  lemma SearchingNarrows(papers: seq<Paper>, term: string, f: Filters)
    ensures IsSubsequence(Filter(papers, VisibleUnder(term, f)), Filter(papers, VisibleUnder("", f)))
  {
    FilterMonotone(papers, VisibleUnder(term, f), VisibleUnder("", f));
  }

  /** Choosing year `y` from the year drop-down (whose option values are the
      decimal years) shows exactly the papers of that year. */
  lemma YearOptionSelectsThatYear(papers: seq<Paper>, y: int)
    ensures forall p :: p in Filter(papers, VisibleUnder("", NoFilters.(year := IntToString(y)))) <==> p in papers && p.year == y
  {
    forall p | p in papers && IntToString(p.year) == IntToString(y)
      ensures p.year == y
    {
      IntToStringInjective(p.year, y);
    }
  }

  /** The bookmark list after `toggleBookmark(paper)`. */
  function Toggled(list: seq<Paper>, paper: Paper): (r: seq<Paper>)
    ensures App.HasBookmark(r, paper.id) <==> !App.HasBookmark(list, paper.id)
    ensures forall id :: id != paper.id ==> (App.HasBookmark(r, id) <==> App.HasBookmark(list, id))
  {
    if App.HasBookmark(list, paper.id) then App.WithoutBookmark(list, paper.id)
    else
      App.AddedIsBookmarked(list, paper);
      App.WithBookmark(list, paper)
  }

  /** Toggling an unbookmarked paper twice gives back the list. */
  lemma ToggleTwiceRestores(list: seq<Paper>, paper: Paper)
    requires !App.HasBookmark(list, paper.id)
    ensures Toggled(Toggled(list, paper), paper) == list
  {
    FilterAppend(list, [paper], App.IdIsNot(paper.id));
    App.RemoveAbsentIsNoOp(list, paper.id);
  }

  /** `toggleBookmark(paper)`: removes a bookmarked paper, adds another one. */
  method ToggleBookmark(store: App.BookmarkStore, paper: Paper)
    modifies store
    ensures store.bookmarks == Toggled(old(store.bookmarks), paper)
    ensures store.IsBookmarked(paper.id) <==> !old(store.IsBookmarked(paper.id))
    ensures old(store.Valid()) ==> store.Valid()
  {
    if store.IsBookmarked(paper.id) {
      store.RemoveBookmark(paper.id);
    } else {
      store.AddBookmark(paper);
    }
  }
}
