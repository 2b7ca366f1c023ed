/** The request side of the API client: the query parameters and URLs of the
    paper and cutoff requests, and the file-URL helper. A `URLSearchParams`
    object is an ordered list of key/value pairs. */
module Api {
  import opened Options
  import opened Seqs

  const ApiBaseUrl := "http://localhost:3001"

  datatype Param = Param(key: string, value: string)

  function ParamKey(p: Param): string {
    p.key
  }

  /** No pair before position `i` has `key`. */
  predicate NoKeyBefore(params: seq<Param>, key: string, i: int) {
    forall j :: 0 <= j < i && j < |params| ==> params[j].key != key
  }

  /** The first value stored under `key`, as `URLSearchParams.get` reads it. */
  function Lookup(params: seq<Param>, key: string): (r: Option<string>)
    ensures r.Some? <==> exists p :: p in params && p.key == key
    ensures r.Some? ==> Param(key, r.value) in params
    ensures r.Some? ==> exists i :: 0 <= i < |params| && params[i] == Param(key, r.value) && NoKeyBefore(params, key, i)
  {
    if params == [] then None
    else if params[0].key == key then Some(params[0].value)
    else Lookup(params[1..], key)
  }

  /** Under distinct keys, a stored pair is what `Lookup` finds. */
  lemma {:induction false} LookupDistinct(params: seq<Param>, p: Param)
    requires DistinctBy(params, ParamKey) && p in params
    ensures Lookup(params, p.key) == Some(p.value)
  {
    if params[0] != p {
      assert params[0].key != p.key by {
        var j :| 0 <= j < |params| && params[j] == p;
        assert j > 0 && ParamKey(params[0]) != ParamKey(params[j]);
      }
      assert DistinctBy(params[1..], ParamKey) by {
        forall i, j | 0 <= i < j < |params[1..]|
          ensures ParamKey(params[1..][i]) != ParamKey(params[1..][j])
        {
          assert params[1..][i] == params[i + 1] && params[1..][j] == params[j + 1];
        }
      }
      LookupDistinct(params[1..], p);
    }
  }

  /** `params.toString()`, without percent-encoding: `k=v` pairs joined by `&`. */
  function Serialize(params: seq<Param>): (s: string)
    ensures s == "" <==> params == []
  {
    if params == [] then ""
    else if |params| == 1 then params[0].key + "=" + params[0].value
    else params[0].key + "=" + params[0].value + "&" + Serialize(params[1..])
  }

  /** The filter object of `fetchPapers`; an unset or falsy field is "". */
  datatype PaperQuery = PaperQuery(year: string, subject: string, difficulty: string, sortBy: string, order: string)

  /** `fetchPapers()` with its default `{}`. */
  const NoQuery := PaperQuery("", "", "", "", "")

  /** The keys `fetchPapers` may send, in the order it appends them. */
  const PaperKeys := ["year", "subject", "difficulty", "sortBy", "order"]

  function Field(q: PaperQuery, key: string): string {
    if key == "year" then q.year
    else if key == "subject" then q.subject
    else if key == "difficulty" then q.difficulty
    else if key == "sortBy" then q.sortBy
    else if key == "order" then q.order
    else ""
  }

  /** One pair per key, in the appending order, whether supplied or not. */
  function CandidateParams(q: PaperQuery): (c: seq<Param>)
    ensures |c| == |PaperKeys|
    ensures forall i :: 0 <= i < |c| ==> c[i] == Param(PaperKeys[i], Field(q, PaperKeys[i]))
  {
    [Param("year", q.year), Param("subject", q.subject), Param("difficulty", q.difficulty),
     Param("sortBy", q.sortBy), Param("order", q.order)]
  }

  /** The position of a key in the appending order. */
  function KeyRank(key: string): int {
    if key == "year" then 0
    else if key == "subject" then 1
    else if key == "difficulty" then 2
    else if key == "sortBy" then 3
    else if key == "order" then 4
    else 5
  }

  /** The pair `p` if its value was supplied, nothing otherwise. */
  function IfSupplied(p: Param): seq<Param> {
    if p.value != "" then [p] else []
  }

  /** The parameters of `fetchPapers`: exactly the supplied fields, in the
      fixed key order. */
  function PaperParams(q: PaperQuery): (r: seq<Param>)
    ensures forall p :: p in r <==> p in CandidateParams(q) && p.value != ""
    ensures RanksIncrease(r)
  {
    var c := CandidateParams(q);
    SuppliedInOrder(c[0], c[1], c[2], c[3], c[4]);
    IfSupplied(c[0]) + IfSupplied(c[1]) + IfSupplied(c[2]) + IfSupplied(c[3]) + IfSupplied(c[4])
  }

  /** Keys of increasing position in the appending order. */
  predicate RanksIncrease(r: seq<Param>) {
    forall i, j :: 0 <= i < j < |r| ==> KeyRank(r[i].key) < KeyRank(r[j].key)
  }

  /** Five candidates of ranks 0 to 4, each kept when supplied, give pairs of
      increasing rank, and exactly the supplied candidates. */
  lemma SuppliedInOrder(c0: Param, c1: Param, c2: Param, c3: Param, c4: Param)
    requires KeyRank(c0.key) == 0 && KeyRank(c1.key) == 1 && KeyRank(c2.key) == 2
    requires KeyRank(c3.key) == 3 && KeyRank(c4.key) == 4
    ensures var r := IfSupplied(c0) + IfSupplied(c1) + IfSupplied(c2) + IfSupplied(c3) + IfSupplied(c4);
      && RanksIncrease(r)
      && forall p :: p in r <==> (p == c0 || p == c1 || p == c2 || p == c3 || p == c4) && p.value != ""
  {
    var r1 := IfSupplied(c0) + IfSupplied(c1);
    var r2 := r1 + IfSupplied(c2);
    var r3 := r2 + IfSupplied(c3);
    var r4 := r3 + IfSupplied(c4);
    OrderedAppend(IfSupplied(c0), IfSupplied(c1), 1);
    OrderedAppend(r1, IfSupplied(c2), 2);
    OrderedAppend(r2, IfSupplied(c3), 3);
    OrderedAppend(r3, IfSupplied(c4), 4);
  }

  /** Appending pairs of rank `k` to pairs of lower rank keeps the ranks increasing. */
  lemma OrderedAppend(a: seq<Param>, b: seq<Param>, k: int)
    requires RanksIncrease(a) && RanksIncrease(b)
    requires forall i :: 0 <= i < |a| ==> KeyRank(a[i].key) < k
    requires forall i :: 0 <= i < |b| ==> KeyRank(b[i].key) == k
    ensures RanksIncrease(a + b)
    ensures forall i :: 0 <= i < |a + b| ==> KeyRank((a + b)[i].key) <= k
  {
  }

  /** No key is sent twice. */
  lemma PaperParamsDistinctKeys(q: PaperQuery)
    ensures DistinctBy(PaperParams(q), ParamKey)
  {
  }

  /** The server reads each of the five keys as the field when it was
      supplied and finds nothing otherwise. */
  lemma PaperParamsLookup(q: PaperQuery, key: string)
    requires key in PaperKeys
    ensures Lookup(PaperParams(q), key) == if Field(q, key) == "" then None else Some(Field(q, key))
  {
    if Field(q, key) != "" {
      SuppliedIsSent(q, key);
      PaperParamsDistinctKeys(q);
      LookupDistinct(PaperParams(q), Param(key, Field(q, key)));
    } else {
      UnsuppliedIsAbsent(q, key);
    }
  }

  /** A supplied field sends its pair. */
  lemma SuppliedIsSent(q: PaperQuery, key: string)
    requires key in PaperKeys && Field(q, key) != ""
    ensures Param(key, Field(q, key)) in PaperParams(q)
  {
    var i :| 0 <= i < |PaperKeys| && PaperKeys[i] == key;
    assert CandidateParams(q)[i] == Param(key, Field(q, key));
  }

  /** A field that was not supplied sends no pair with its key. */
  lemma UnsuppliedIsAbsent(q: PaperQuery, key: string)
    requires key in PaperKeys && Field(q, key) == ""
    ensures forall p :: p in PaperParams(q) ==> p.key != key
  {
    var c := CandidateParams(q);
    forall p | p in PaperParams(q)
      ensures p.key != key
    {
      var j :| 0 <= j < |c| && c[j] == p;
      assert p == Param(PaperKeys[j], Field(q, PaperKeys[j]));
    }
  }

  /** The parameters of `fetchPapers`, one optional pair per field. */
  lemma PaperParamsByField(q: PaperQuery)
    ensures PaperParams(q) == IfSupplied(Param("year", q.year)) + IfSupplied(Param("subject", q.subject))
      + IfSupplied(Param("difficulty", q.difficulty)) + IfSupplied(Param("sortBy", q.sortBy))
      + IfSupplied(Param("order", q.order))
  {
  }

  /** Builds the paper parameters as `fetchPapers` does, by one conditional
      `append` per field. */
  method BuildPaperParams(q: PaperQuery) returns (params: seq<Param>)
    ensures params == PaperParams(q)
  {
    params := [];
    if q.year != "" {
      params := params + [Param("year", q.year)];
    }
    assert params == IfSupplied(Param("year", q.year));
    if q.subject != "" {
      params := params + [Param("subject", q.subject)];
    }
    assert params == IfSupplied(Param("year", q.year)) + IfSupplied(Param("subject", q.subject));
    if q.difficulty != "" {
      params := params + [Param("difficulty", q.difficulty)];
    }
    assert params == IfSupplied(Param("year", q.year)) + IfSupplied(Param("subject", q.subject))
      + IfSupplied(Param("difficulty", q.difficulty));
    if q.sortBy != "" {
      params := params + [Param("sortBy", q.sortBy)];
    }
    assert params == IfSupplied(Param("year", q.year)) + IfSupplied(Param("subject", q.subject))
      + IfSupplied(Param("difficulty", q.difficulty)) + IfSupplied(Param("sortBy", q.sortBy));
    if q.order != "" {
      params := params + [Param("order", q.order)];
    }
    PaperParamsByField(q);
  }

  /** The URL of `fetchPapers`: a query string only when there are parameters. */
  function PapersUrl(q: PaperQuery): (url: string)
    ensures PaperParams(q) == [] ==> url == ApiBaseUrl + "/papers"
    ensures PaperParams(q) != [] ==> url == ApiBaseUrl + "/papers?" + Serialize(PaperParams(q))
  {
    var query := Serialize(PaperParams(q));
    if query != "" then ApiBaseUrl + "/papers?" + query else ApiBaseUrl + "/papers"
  }

  /** The default request asks for every paper with no query string. */
  lemma NoQueryAsksForAll()
    ensures PapersUrl(NoQuery) == ApiBaseUrl + "/papers"
  {
  }

  /** The parameters of `fetchCutoffs(category = "general", subject = "all")`,
      an absent argument being `None`. */
  function CutoffParams(category: Option<string>, subject: Option<string>): (r: seq<Param>)
    ensures r != [] && r[0] == Param("category", category.GetOr("general"))
    ensures DistinctBy(r, ParamKey)
    ensures Lookup(r, "category") == Some(category.GetOr("general"))
    ensures Lookup(r, "subject") == if subject.GetOr("all") == "all" then None else Some(subject.GetOr("all"))
    ensures forall p :: p in r ==> p.key == "category" || p.key == "subject"
  {
    var first := [Param("category", category.GetOr("general"))];
    var s := subject.GetOr("all");
    if s != "all" then first + [Param("subject", s)] else first
  }

  /** Builds the cutoff parameters as `fetchCutoffs` does. */
  method BuildCutoffParams(category: Option<string>, subject: Option<string>) returns (params: seq<Param>)
    ensures params == CutoffParams(category, subject)
  {
    var cat := category.GetOr("general");
    var subj := subject.GetOr("all");
    params := [Param("category", cat)];
    if subj != "all" {
      params := params + [Param("subject", subj)];
    }
  }

  /** The URL of `fetchCutoffs`: it always carries a query string, which
      always starts with the category and ends with the subject unless that
      is "all". */
  function CutoffsUrl(category: Option<string>, subject: Option<string>): (url: string)
    ensures url == ApiBaseUrl + "/cutoffs?" + CutoffQuery(category.GetOr("general"), subject.GetOr("all"))
  {
    SerializeCutoffParams(category, subject);
    ApiBaseUrl + "/cutoffs?" + Serialize(CutoffParams(category, subject))
  }

  /** `category=<category>`, then `&subject=<subject>` unless the subject is "all". */
  function CutoffQuery(category: string, subject: string): string {
    var first := "category" + "=" + category;
    if subject == "all" then first else first + "&" + ("subject" + "=" + subject)
  }

  lemma SerializeCutoffParams(category: Option<string>, subject: Option<string>)
    ensures Serialize(CutoffParams(category, subject)) == CutoffQuery(category.GetOr("general"), subject.GetOr("all"))
  {
    var cat, s := category.GetOr("general"), subject.GetOr("all");
    if s != "all" {
      var two := [Param("category", cat), Param("subject", s)];
      assert CutoffParams(category, subject) == two;
      assert two[1..] == [Param("subject", s)];
    }
  }

  /** `getFileUrl(filePath)`: nothing for a missing or empty path, otherwise
      the path under the API base. */
  function FileUrl(filePath: Option<string>): (r: Option<string>)
    ensures r.None? <==> filePath.None? || filePath.value == ""
    ensures r.Some? ==> r.value == ApiBaseUrl + "/" + filePath.value
  {
    if filePath.None? || filePath.value == "" then None
    else Some(ApiBaseUrl + "/" + filePath.value)
  }

  /** The file URL determines the path: it is what follows the base and "/". */
  lemma FileUrlRecoversPath(filePath: Option<string>)
    requires FileUrl(filePath).Some?
    ensures var url := FileUrl(filePath).value;
      |url| > |ApiBaseUrl| + 1 && url[|ApiBaseUrl| + 1..] == filePath.value
  {
  }

  lemma FileUrlInjective(a: Option<string>, b: Option<string>)
    requires FileUrl(a).Some? && FileUrl(a) == FileUrl(b)
    ensures a == b
  {
    FileUrlRecoversPath(a);
    FileUrlRecoversPath(b);
  }
}
