/** The solutions page: which questions have their solution shown, which
    option is highlighted as correct, the option letters, and the link the
    "Download PDF" button produces. */
module Solutions {
  import opened Options
  import opened Text
  import opened Records
  import Api

  /** `showSolution[id]` read as a condition; an id never toggled is hidden. */
  predicate IsShown(m: map<int, bool>, id: int) {
    id in m && m[id]
  }

  /** The updater of `toggleSolution(id)`: `{ ...prev, [id]: !prev[id] }`. */
  function Toggled(m: map<int, bool>, id: int): (r: map<int, bool>)
    ensures IsShown(r, id) <==> !IsShown(m, id)
    ensures r.Keys == m.Keys + {id}
    ensures forall k :: k in m && k != id ==> r[k] == m[k]
  {
    m[id := !IsShown(m, id)]
  }

  /** Toggling a question twice gives back what is shown, for every question. */
  lemma ToggleTwiceRestores(m: map<int, bool>, id: int)
    ensures forall k :: IsShown(Toggled(Toggled(m, id), id), k) <==> IsShown(m, k)
  {
  }

  /** Toggling one question never changes what another one shows. */
  lemma ToggleIsLocal(m: map<int, bool>, id: int, other: int)
    requires other != id
    ensures IsShown(Toggled(m, id), other) <==> IsShown(m, other)
  {
  }

  /** The `showSolution` state of the page. */
  class SolutionVisibility {
    var showSolution: map<int, bool>

    /** `useState({})`: no solution is shown. */
    constructor ()
      ensures showSolution == map[]
      ensures forall id :: !IsShown(showSolution, id)
    {
      showSolution := map[];
    }

    /** `toggleSolution(questionId)` */
    method ToggleSolution(questionId: int)
      modifies this
      ensures showSolution == Toggled(old(showSolution), questionId)
      ensures IsShown(showSolution, questionId) <==> !old(IsShown(showSolution, questionId))
      ensures forall k :: k != questionId ==> (IsShown(showSolution, k) <==> old(IsShown(showSolution, k)))
    {
      showSolution := Toggled(showSolution, questionId);
    }
  }

  /** A question as the page renders it: its options and the correct index. */
  datatype Question = Question(id: int, options: seq<string>, correct: int)

  /** Which rendered options get the "correct" styling: the option at the
      correct index, and only while the question's solution is shown. */
  function Highlights(m: map<int, bool>, q: Question): (r: seq<bool>)
    ensures |r| == |q.options|
    ensures forall i :: 0 <= i < |r| ==> (r[i] <==> IsShown(m, q.id) && i == q.correct)
  {
    seq(|q.options|, i requires 0 <= i < |q.options| => IsShown(m, q.id) && i == q.correct)
  }

  /** The number of highlighted options. */
  function CountTrue(s: seq<bool>): (n: nat)
    ensures n <= |s|
  {
    if s == [] then 0 else CountTrue(s[..|s| - 1]) + if s[|s| - 1] then 1 else 0
  }

  lemma {:induction false} CountOfOnlyAt(s: seq<bool>, k: int)
    requires forall i :: 0 <= i < |s| ==> (s[i] <==> i == k)
    ensures CountTrue(s) == if 0 <= k < |s| then 1 else 0
  {
    if s != [] {
      var pre := s[..|s| - 1];
      CountOfOnlyAt(pre, k);
    }
  }

  lemma {:induction false} CountOfNone(s: seq<bool>)
    requires forall i :: 0 <= i < |s| ==> !s[i]
    ensures CountTrue(s) == 0
  {
    if s != [] {
      CountOfNone(s[..|s| - 1]);
    }
  }

  /** A shown question with a valid correct index highlights exactly one
      option; a hidden question highlights none. */
  lemma HighlightCount(m: map<int, bool>, q: Question)
    ensures IsShown(m, q.id) ==> CountTrue(Highlights(m, q)) == if 0 <= q.correct < |q.options| then 1 else 0
    ensures !IsShown(m, q.id) ==> CountTrue(Highlights(m, q)) == 0
  {
    if IsShown(m, q.id) {
      CountOfOnlyAt(Highlights(m, q), q.correct);
    } else {
      CountOfNone(Highlights(m, q));
    }
  }

  /** The code `A` has. */
  const LetterA := 65

  /** `String.fromCharCode(65 + optionIndex)`, for code points that are
      characters. */
  function OptionLabel(optionIndex: nat): (c: char)
    requires LetterA + optionIndex < 0xD800
    ensures c as int - LetterA == optionIndex
  {
    (LetterA + optionIndex) as char
  }

  /** Distinct options get distinct labels, and the first 26 are the capital
      letters in order. */
  lemma OptionLabelsAreLetters(i: nat, j: nat)
    requires i < 26 && j < 26
    ensures 'A' <= OptionLabel(i) <= 'Z'
    ensures OptionLabel(i) == OptionLabel(j) <==> i == j
    ensures i < j ==> OptionLabel(i) < OptionLabel(j)
  {
  }

  /** The download link the page would click. */
  datatype Download = Download(href: string, filename: string)

  const UploadsUrl := "http://localhost:3001/uploads/"

  const SolutionSuffix := "_solution.pdf"

  function SolutionFilename(subject: string, year: int): string {
    subject + "_" + IntToString(year) + SolutionSuffix
  }

  /** `handleDownloadSolution(paper)`: nothing without a solution link;
      otherwise the uploaded file, named after subject and year. */
  function SolutionDownload(paper: Paper): (r: Option<Download>)
    ensures r.None? <==> paper.solutionLink == ""
    ensures r.Some? ==> Api.FileUrl(Some("uploads/" + paper.solutionLink)) == Some(r.value.href)
    ensures r.Some? ==> r.value.filename == SolutionFilename(paper.subject, paper.year)
    ensures r.Some? ==>
      |r.value.filename| > |SolutionSuffix| && r.value.filename[|r.value.filename| - |SolutionSuffix|..] == SolutionSuffix
  {
    if paper.solutionLink == "" then None
    else
      var href := UploadsUrl + paper.solutionLink;
      assert href == Api.ApiBaseUrl + "/" + ("uploads/" + paper.solutionLink);
      Some(Download(href, SolutionFilename(paper.subject, paper.year)))
  }

  /** The file name gives the year back once the subject is known. */
  lemma SolutionFilenameRecoversYear(subject: string, year: int)
    ensures var name := SolutionFilename(subject, year);
      |subject| + 1 <= |name| - |SolutionSuffix|
      && ParseInt(name[|subject| + 1..|name| - |SolutionSuffix|]) == year
  {
    var name := SolutionFilename(subject, year);
    assert name[|subject| + 1..|name| - |SolutionSuffix|] == IntToString(year);
    IntToStringRoundTrip(year);
  }

  /** Two papers of one subject get the same solution file name only when
      they are of the same year. */
  lemma SolutionFilenameDistinguishesYears(subject: string, a: int, b: int)
    requires SolutionFilename(subject, a) == SolutionFilename(subject, b)
    ensures a == b
  {
    SolutionFilenameRecoversYear(subject, a);
    SolutionFilenameRecoversYear(subject, b);
  }
}
