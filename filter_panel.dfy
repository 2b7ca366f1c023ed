/** The archive's filter panel: the options of its three drop-downs, and the
    two updates it makes to the archive's `filters` state. */
module FilterPanel {
  import opened Seqs
  import opened Records

  /** The archive's filter criteria; the empty string means "any". */
  datatype Filters = Filters(year: string, subject: string, difficulty: string)

  datatype FilterKey = YearKey | SubjectKey | DifficultyKey

  /** The initial filters, and what "Clear All" restores. */
  const NoFilters := Filters("", "", "")

  /** The difficulty options, in display order. */
  const Difficulties := ["Easy", "Medium", "Hard"]

  function Get(f: Filters, key: FilterKey): string {
    match key
    case YearKey => f.year
    case SubjectKey => f.subject
    case DifficultyKey => f.difficulty
  }

  /** `{ ...prev, [key]: value }` */
  function WithFilter(f: Filters, key: FilterKey, value: string): (r: Filters)
    ensures Get(r, key) == value
    ensures forall k :: k != key ==> Get(r, k) == Get(f, k)
  {
    match key
    case YearKey => f.(year := value)
    case SubjectKey => f.(subject := value)
    case DifficultyKey => f.(difficulty := value)
  }

  function Identity(y: int): int {
    y
  }

  /** `[...new Set(papers.map((p) => p.year))].sort((a, b) => b - a)`: every
      year that occurs, once, strictly newest first. (The subject options are
      `Records.DistinctSubjects`.) */
  function YearOptions(papers: seq<Paper>): (r: seq<int>)
    ensures forall i, j :: 0 <= i < j < |r| ==> r[i] > r[j]
    ensures forall y :: y in r <==> exists p :: p in papers && p.year == y
  {
    var years := Years(papers);
    var d := Dedup(years);
    SortedDistinctMembers(d);
    var r := SortDesc(d, Identity);
    assert forall y :: y in r <==> y in years;
    YearsMembership(papers);
    r
  }

  lemma SortedDistinctMembers(d: seq<int>)
    requires Distinct(d)
    ensures var r := SortDesc(d, Identity);
      (forall y :: y in r <==> y in d) && forall i, j :: 0 <= i < j < |r| ==> r[i] > r[j]
  {
    var r := SortDesc(d, Identity);
    SortDescKeepsDistinct(d, Identity);
    assert multiset(r) == multiset(d);
    forall y
      ensures y in r <==> y in d
    {
      assert y in r <==> y in multiset(r);
      assert y in d <==> y in multiset(d);
    }
    assert SortedDesc(r, Identity);
    assert Distinct(r);
    forall i, j | 0 <= i < j < |r|
      ensures r[i] > r[j]
    {
      assert Identity(r[i]) >= Identity(r[j]);
      assert r[i] != r[j];
    }
  }

  /** The archive's `filters` state, written only through the panel. */
  class FilterState {
    var filters: Filters

    /** `useState({ year: "", subject: "", difficulty: "" })` */
    constructor ()
      ensures filters == NoFilters
    {
      filters := NoFilters;
    }

    /** `handleFilterChange(key, value)`: sets one criterion, keeps the others. */
    method HandleFilterChange(key: FilterKey, value: string)
      modifies this
      ensures filters == WithFilter(old(filters), key, value)
      ensures Get(filters, key) == value
      ensures forall k :: k != key ==> Get(filters, k) == Get(old(filters), k)
    {
      filters := WithFilter(filters, key, value);
    }

    /** `clearFilters()`: every criterion back to "any", whatever it was. */
    method ClearFilters()
      modifies this
      ensures filters == NoFilters
    {
      filters := Filters("", "", "");
    }
  }
}
