/** The statistics of the cutoff analysis page, computed from the cutoff series
    of the selected category and subject, and the order of its paper table. */
module CutoffAnalysis {
  import opened Seqs
  import opened Records

  datatype Direction = Up | Down | Stable

  /** The direction of the last step of the series and its size. */
  datatype Trend = Trend(direction: Direction, change: int)

  function Abs(x: int): int {
    if x < 0 then -x else x
  }

  /** The step a trend stands for: `change` with the sign of its direction. */
  function SignedChange(t: Trend): int {
    match t.direction
    case Up => t.change
    case Down => -t.change
    case Stable => 0
  }

  /** `getCutoffTrend()`: compares the last two points in list order. */
  function CutoffTrend(data: seq<CutoffPoint>): (t: Trend)
    ensures t.change >= 0
    ensures |data| < 2 ==> t == Trend(Stable, 0)
    ensures |data| >= 2 ==>
      var step := data[|data| - 1].cutoff - data[|data| - 2].cutoff;
      && (t.direction == Up <==> step > 0)
      && (t.direction == Down <==> step < 0)
      && t.change == Abs(step)
  {
    if |data| < 2 then Trend(Stable, 0)
    else
      var latest := data[|data| - 1].cutoff;
      var previous := data[|data| - 2].cutoff;
      var change := latest - previous;
      if change > 0 then Trend(Up, change)
      else if change < 0 then Trend(Down, Abs(change))
      else Trend(Stable, 0)
  }

  /** The trend loses nothing about the last step: the latest cutoff is the
      previous one plus the signed change. */
  lemma TrendRecoversLastStep(data: seq<CutoffPoint>)
    requires |data| >= 2
    ensures data[|data| - 1].cutoff == data[|data| - 2].cutoff + SignedChange(CutoffTrend(data))
  {
  }

  /** Only the last two points decide the trend. */
  lemma TrendIgnoresHistory(history: seq<CutoffPoint>, previous: CutoffPoint, latest: CutoffPoint)
    ensures CutoffTrend(history + [previous, latest]) == CutoffTrend([previous, latest])
  {
    var data := history + [previous, latest];
    assert data[|data| - 1] == latest && data[|data| - 2] == previous;
  }

  /** `cutoffData.reduce((sum, item) => sum + item.cutoff, 0)` */
  function Sum(data: seq<CutoffPoint>): (s: int)
    ensures s == SumFromFront(data)
  {
    if data == [] then 0
    else
      var pre := data[..|data| - 1];
      SumFromFrontSnoc(pre, data[|data| - 1]);
      assert pre + [data[|data| - 1]] == data;
      Sum(pre) + data[|data| - 1].cutoff
  }

  /** The same total, adding from the first point on. */
  function SumFromFront(data: seq<CutoffPoint>): int {
    if data == [] then 0 else data[0].cutoff + SumFromFront(data[1..])
  }

  lemma {:induction false} SumFromFrontSnoc(data: seq<CutoffPoint>, last: CutoffPoint)
    ensures SumFromFront(data + [last]) == SumFromFront(data) + last.cutoff
  {
    if data != [] {
      assert (data + [last])[1..] == data[1..] + [last];
      SumFromFrontSnoc(data[1..], last);
    }
  }

  /** `getAverageCutoff()`: 0 for no data, otherwise `Math.round` of the mean,
      which rounds halves up: the mean lies in [avg - 1/2, avg + 1/2). */
  function AverageCutoff(data: seq<CutoffPoint>): (avg: int)
    ensures |data| == 0 ==> avg == 0
    ensures |data| > 0 ==> 2 * |data| * avg - |data| <= 2 * Sum(data) < 2 * |data| * avg + |data|
  {
    if |data| == 0 then 0
    else
      var n := |data|;
      var q := (2 * Sum(data) + n) / (2 * n);
      RoundingBounds(2 * Sum(data) + n, 2 * n, q);
      q
  }

  lemma RoundingBounds(a: int, b: int, q: int)
    requires b > 0 && q == a / b
    ensures b * q <= a < b * q + b
  {
    assert a == b * (a / b) + a % b;
  }

  /** The zero point the page shows when there is no data. */
  const NoPoint := CutoffPoint(0, 0)

  /** `getHighestCutoff()`: the reduce keeps the running maximum and replaces
      it only on a strictly greater cutoff, so it returns a point of greatest
      cutoff, and no point with that cutoff comes before it. */
  function HighestCutoff(data: seq<CutoffPoint>): (h: CutoffPoint)
    ensures data == [] ==> h == NoPoint
    ensures data != [] ==> h in data
    ensures forall j :: 0 <= j < |data| ==> data[j].cutoff <= h.cutoff
    ensures forall j :: 0 <= j < |data| && data[j].cutoff == h.cutoff ==> IndexOf(data, h) <= j
  {
    if data == [] then NoPoint
    else if |data| == 1 then data[0]
    else
      var pre, item := data[..|data| - 1], data[|data| - 1];
      var max := HighestCutoff(pre);
      var h := if item.cutoff > max.cutoff then item else max;
      FoldStep(data, pre, item, max, h);
      h
  }

  /** `getLowestCutoff()`: a point of least cutoff, and no point with that
      cutoff comes before it. */
  function LowestCutoff(data: seq<CutoffPoint>): (l: CutoffPoint)
    ensures data == [] ==> l == NoPoint
    ensures data != [] ==> l in data
    ensures forall j :: 0 <= j < |data| ==> l.cutoff <= data[j].cutoff
    ensures forall j :: 0 <= j < |data| && data[j].cutoff == l.cutoff ==> IndexOf(data, l) <= j
  {
    if data == [] then NoPoint
    else if |data| == 1 then data[0]
    else
      var pre, item := data[..|data| - 1], data[|data| - 1];
      var min := LowestCutoff(pre);
      var l := if item.cutoff < min.cutoff then item else min;
      FoldStep(data, pre, item, min, l);
      l
  }

  /** One step of either reduce: the running result is replaced only by a new
      item with a different cutoff, which then ties with no earlier point. */
  lemma FoldStep(data: seq<CutoffPoint>, pre: seq<CutoffPoint>, item: CutoffPoint, acc: CutoffPoint, r: CutoffPoint)
    requires data == pre + [item] && acc in pre
    requires forall j :: 0 <= j < |pre| && pre[j].cutoff == acc.cutoff ==> IndexOf(pre, acc) <= j
    requires r == acc || (r == item && forall j :: 0 <= j < |pre| ==> pre[j].cutoff != item.cutoff)
    ensures r in data
    ensures forall j :: 0 <= j < |data| && data[j].cutoff == r.cutoff ==> IndexOf(data, r) <= j
  {
    IndexOfAppend(pre, [item]);
    forall j | 0 <= j < |data| && data[j].cutoff == r.cutoff
      ensures IndexOf(data, r) <= j
    {
      if j < |pre| {
        assert data[j] == pre[j];
      }
    }
  }

  /** `k` is the first position whose cutoff is `c`. */
  predicate EarliestWith(data: seq<CutoffPoint>, c: int, k: int) {
    0 <= k < |data| && data[k].cutoff == c && forall j :: 0 <= j < k ==> data[j].cutoff != c
  }

  /** A point that comes no later than every point with its cutoff is the
      point at the first position with that cutoff. */
  lemma PinnedToEarliest(data: seq<CutoffPoint>, r: CutoffPoint, k: int)
    requires r in data && EarliestWith(data, r.cutoff, k)
    requires forall j :: 0 <= j < |data| && data[j].cutoff == r.cutoff ==> IndexOf(data, r) <= j
    ensures r == data[k]
  {
    var i := IndexOf(data, r);
    assert i <= k;
  }

  /** The contract above determines the highest point uniquely: it is the
      point at the first position of greatest cutoff. */
  lemma HighestIsEarliestMaximum(data: seq<CutoffPoint>, k: int)
    requires 0 <= k < |data|
    requires forall j :: 0 <= j < |data| ==> data[j].cutoff <= data[k].cutoff
    requires forall j :: 0 <= j < k ==> data[j].cutoff < data[k].cutoff
    ensures HighestCutoff(data) == data[k]
  {
    var h := HighestCutoff(data);
    assert h.cutoff == data[k].cutoff;
    PinnedToEarliest(data, h, k);
  }

  /** The lowest point is the point at the first position of least cutoff. */
  lemma LowestIsEarliestMinimum(data: seq<CutoffPoint>, k: int)
    requires 0 <= k < |data|
    requires forall j :: 0 <= j < |data| ==> data[k].cutoff <= data[j].cutoff
    requires forall j :: 0 <= j < k ==> data[k].cutoff < data[j].cutoff
    ensures LowestCutoff(data) == data[k]
  {
    var l := LowestCutoff(data);
    assert l.cutoff == data[k].cutoff;
    PinnedToEarliest(data, l, k);
  }

  lemma {:induction false} SumBounds(data: seq<CutoffPoint>, lo: int, hi: int)
    requires forall j :: 0 <= j < |data| ==> lo <= data[j].cutoff <= hi
    ensures |data| * lo <= Sum(data) <= |data| * hi
  {
    if data != [] {
      var pre := data[..|data| - 1];
      SumBounds(pre, lo, hi);
      assert |data| * lo == |pre| * lo + lo;
      assert |data| * hi == |pre| * hi + hi;
    }
  }

  /** The rounded mean never leaves the range of the series. */
  lemma AverageWithinRange(data: seq<CutoffPoint>)
    ensures LowestCutoff(data).cutoff <= AverageCutoff(data) <= HighestCutoff(data).cutoff
  {
    if data == [] {
      return;
    }
    var lo, hi := LowestCutoff(data).cutoff, HighestCutoff(data).cutoff;
    SumBounds(data, lo, hi);
    RoundedMeanBounds(|data|, Sum(data), AverageCutoff(data), lo, hi);
  }

  lemma RoundedMeanBounds(n: int, s: int, avg: int, lo: int, hi: int)
    requires n > 0 && n * lo <= s <= n * hi
    requires 2 * n * avg - n <= 2 * s < 2 * n * avg + n
    ensures lo <= avg <= hi
  {
    NotBelow(n, lo, avg);
    NotAbove(n, hi, avg);
  }

  lemma NotBelow(n: int, lo: int, avg: int)
    requires n > 0 && 2 * n * lo < 2 * n * avg + n
    ensures lo <= avg
  {
    MulAtLeast(2 * n, lo - avg);
  }

  lemma NotAbove(n: int, hi: int, avg: int)
    requires n > 0 && 2 * n * avg - n <= 2 * n * hi
    ensures avg <= hi
  {
    MulAtLeast(2 * n, avg - hi);
  }

  lemma MulAtLeast(n: int, d: int)
    requires n > 0
    ensures d >= 1 ==> n * d >= n
  {
  }

  /** The table's row filter: `selectedSubject === "all" || paper.subject === selectedSubject`. */
  function SubjectSelected(selected: string): Paper -> bool {
    (p: Paper) => selected == "all" || p.subject == selected
  }

  /** The rows of the detailed table: the papers of the selected subject (all
      of them for "all"), newest first, papers of one year in list order. */
  function TableRows(papers: seq<Paper>, selected: string): (rows: seq<Paper>)
    ensures forall p :: p in rows <==> p in papers && (selected == "all" || p.subject == selected)
    ensures multiset(rows) == multiset(Filter(papers, SubjectSelected(selected)))
    ensures SortedDesc(rows, PaperYear)
    ensures forall y :: Filter(rows, HasKey(PaperYear, y)) == Filter(Filter(papers, SubjectSelected(selected)), HasKey(PaperYear, y))
  {
    var shown := Filter(papers, SubjectSelected(selected));
    var rows := SortDesc(shown, PaperYear);
    assert forall p :: p in rows <==> p in multiset(shown);
    rows
  }

  /** The table order is the only order that is newest first and stable, so
      the browser's stable `sort` produces exactly these rows. */
  lemma TableOrderIsDetermined(papers: seq<Paper>, selected: string, rows: seq<Paper>)
    requires SortedDesc(rows, PaperYear)
    requires forall y :: Filter(rows, HasKey(PaperYear, y)) == Filter(Filter(papers, SubjectSelected(selected)), HasKey(PaperYear, y))
    ensures rows == TableRows(papers, selected)
  {
    SortedStableUnique(rows, TableRows(papers, selected), PaperYear);
  }

  /** Each entry of the subject drop-down selects a non-empty table, and
      nothing else does. */
  lemma SubjectOptionsMatchTable(papers: seq<Paper>, s: string)
    requires s != "all"
    ensures s in DistinctSubjects(papers) <==> TableRows(papers, s) != []
  {
    var rows := TableRows(papers, s);
    if s in DistinctSubjects(papers) {
      var p :| p in papers && p.subject == s;
      assert p in rows;
    }
    if rows != [] {
      assert rows[0] in rows;
    }
  }
}
