/** The records the frontend receives from the API, by the fields it reads. */
module Records {
  import opened Seqs

  /** A question paper. An absent `solution_link` is the empty string. */
  datatype Paper = Paper(id: string, year: int, subject: string, difficulty: string, solutionLink: string)

  /** One point of the cutoff series. */
  datatype CutoffPoint = CutoffPoint(year: int, cutoff: int)

  function PaperYear(p: Paper): int {
    p.year
  }

  function PaperId(p: Paper): string {
    p.id
  }

  /** `papers.map((p) => p.year)` */
  function Years(papers: seq<Paper>): seq<int> {
    seq(|papers|, i requires 0 <= i < |papers| => papers[i].year)
  }

  /** `papers.map((p) => p.subject)` */
  function Subjects(papers: seq<Paper>): seq<string> {
    seq(|papers|, i requires 0 <= i < |papers| => papers[i].subject)
  }

  lemma YearsMembership(papers: seq<Paper>)
    ensures forall y :: y in Years(papers) <==> exists p :: p in papers && p.year == y
  {
    var years := Years(papers);
    forall y
      ensures y in years <==> exists p :: p in papers && p.year == y
    {
      if y in years {
        var i :| 0 <= i < |years| && years[i] == y;
        assert papers[i] in papers;
      }
      if p :| p in papers && p.year == y {
        var i :| 0 <= i < |papers| && papers[i] == p;
        assert years[i] == y;
      }
    }
  }

  lemma SubjectsMembership(papers: seq<Paper>)
    ensures forall s :: s in Subjects(papers) <==> exists p :: p in papers && p.subject == s
  {
    var subjects := Subjects(papers);
    forall s
      ensures s in subjects <==> exists p :: p in papers && p.subject == s
    {
      if s in subjects {
        var i :| 0 <= i < |subjects| && subjects[i] == s;
        assert papers[i] in papers;
      }
      if p :| p in papers && p.subject == s {
        var i :| 0 <= i < |papers| && papers[i] == p;
        assert subjects[i] == s;
      }
    }
  }

  /** `[...new Set(papers.map((p) => p.subject))]`: every subject that occurs,
      once, in the order in which the subjects first occur. */
  function DistinctSubjects(papers: seq<Paper>): (r: seq<string>)
    ensures Distinct(r)
    ensures forall s :: s in r <==> s in Subjects(papers)
    ensures forall s :: s in r <==> exists p :: p in papers && p.subject == s
    ensures forall i, j :: 0 <= i < j < |r| ==> IndexOf(Subjects(papers), r[i]) < IndexOf(Subjects(papers), r[j])
  {
    SubjectsMembership(papers);
    Dedup(Subjects(papers))
  }
}
