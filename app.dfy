/** The application-wide bookmark list: a list of papers that holds each paper
    id at most once. */
module App {
  import opened Options
  import opened Seqs
  import opened Records

  /** `prev.find((p) => p._id === id)` */
  function FindById(list: seq<Paper>, id: string): (r: Option<Paper>)
    ensures r.Some? ==> r.value in list && r.value.id == id
    ensures r.None? ==> forall p :: p in list ==> p.id != id
  {
    if list == [] then None
    else if list[0].id == id then Some(list[0])
    else FindById(list[1..], id)
  }

  /** `bookmarks.some((p) => p._id === id)` */
  function HasBookmark(list: seq<Paper>, id: string): (b: bool)
    ensures b <==> exists p :: p in list && p.id == id
  {
    if list == [] then false
    else list[0].id == id || HasBookmark(list[1..], id)
  }

  /** `find` finds something exactly when `some` holds. */
  lemma FindAgreesWithSome(list: seq<Paper>, id: string)
    ensures FindById(list, id).Some? <==> HasBookmark(list, id)
  {
  }

  /** No two bookmarks share an id. */
  predicate UniqueIds(list: seq<Paper>) {
    DistinctBy(list, PaperId)
  }

  /** The updater of `addBookmark(paper)`. */
  function WithBookmark(list: seq<Paper>, paper: Paper): (r: seq<Paper>)
    ensures HasBookmark(list, paper.id) ==> r == list
    ensures !HasBookmark(list, paper.id) ==> r == list + [paper]
  {
    match FindById(list, paper.id)
    case Some(_) => list
    case None => list + [paper]
  }

  function IdIsNot(id: string): Paper -> bool {
    (p: Paper) => p.id != id
  }

  /** The updater of `removeBookmark(id)`: `prev.filter((p) => p._id !== id)`. */
  function WithoutBookmark(list: seq<Paper>, id: string): (r: seq<Paper>)
    ensures IsSubsequence(r, list)
    ensures forall p :: p in r <==> p in list && p.id != id
    ensures !HasBookmark(r, id)
    ensures forall p :: multiset(r)[p] == if p.id != id then multiset(list)[p] else 0
  {
    FilterKeepsEveryCopy(list, IdIsNot(id));
    Filter(list, IdIsNot(id))
  }

  /** After adding a paper, its id is bookmarked. */
  lemma AddedIsBookmarked(list: seq<Paper>, paper: Paper)
    ensures HasBookmark(WithBookmark(list, paper), paper.id)
  {
    if !HasBookmark(list, paper.id) {
      assert paper in WithBookmark(list, paper);
    }
  }

  /** Adding the same paper twice is adding it once. */
  lemma AddIsIdempotent(list: seq<Paper>, paper: Paper)
    ensures WithBookmark(WithBookmark(list, paper), paper) == WithBookmark(list, paper)
  {
    AddedIsBookmarked(list, paper);
  }

  /** Adding leaves the earlier bookmarks where they were. */
  lemma AddKeepsEarlier(list: seq<Paper>, paper: Paper)
    ensures var r := WithBookmark(list, paper);
      |list| <= |r| && r[..|list|] == list
  {
  }

  /** Removing an id that is not bookmarked changes nothing. */
  lemma RemoveAbsentIsNoOp(list: seq<Paper>, id: string)
    requires !HasBookmark(list, id)
    ensures WithoutBookmark(list, id) == list
  {
    FilterKeepsAll(list, IdIsNot(id));
  }

  lemma AddKeepsIdsUnique(list: seq<Paper>, paper: Paper)
    requires UniqueIds(list)
    ensures UniqueIds(WithBookmark(list, paper))
  {
    if !HasBookmark(list, paper.id) {
      var r := list + [paper];
      forall i, j | 0 <= i < j < |r|
        ensures r[i].id != r[j].id
      {
        if j == |list| {
          assert list[i] in list;
        }
      }
    }
  }

  lemma RemoveKeepsIdsUnique(list: seq<Paper>, id: string)
    requires UniqueIds(list)
    ensures UniqueIds(WithoutBookmark(list, id))
  {
    FilterKeepsDistinctBy(list, IdIsNot(id), PaperId);
  }

  /** What the pages can do to the bookmark list. */
  datatype BookmarkAction = Add(paper: Paper) | Remove(id: string)

  function Apply(list: seq<Paper>, action: BookmarkAction): seq<Paper> {
    match action
    case Add(paper) => WithBookmark(list, paper)
    case Remove(id) => WithoutBookmark(list, id)
  }

  /** The bookmark list after `actions`, starting from `useState([])`. */
  function Replay(actions: seq<BookmarkAction>): seq<Paper> {
    if actions == [] then [] else Apply(Replay(actions[..|actions| - 1]), actions[|actions| - 1])
  }

  /** Whatever the pages do, no id is ever bookmarked twice. */
  lemma {:induction false} ReplayKeepsIdsUnique(actions: seq<BookmarkAction>)
    ensures UniqueIds(Replay(actions))
  {
    if actions != [] {
      var before := Replay(actions[..|actions| - 1]);
      ReplayKeepsIdsUnique(actions[..|actions| - 1]);
      match actions[|actions| - 1]
      case Add(paper) => AddKeepsIdsUnique(before, paper);
      case Remove(id) => RemoveKeepsIdsUnique(before, id);
    }
  }

  /** The `bookmarks` state of `App`, shared through the context. */
  class BookmarkStore {
    var bookmarks: seq<Paper>

    ghost predicate Valid()
      reads this
    {
      UniqueIds(bookmarks)
    }

    /** `useState([])` */
    constructor ()
      ensures bookmarks == [] && Valid()
    {
      bookmarks := [];
    }

    /** `isBookmarked(id)` */
    function IsBookmarked(id: string): (b: bool)
      reads this
      ensures b <==> exists p :: p in bookmarks && p.id == id
    {
      HasBookmark(bookmarks, id)
    }

    /** `addBookmark(paper)` */
    method AddBookmark(paper: Paper)
      modifies this
      ensures bookmarks == WithBookmark(old(bookmarks), paper)
      ensures IsBookmarked(paper.id)
      ensures old(Valid()) ==> Valid()
    {
      if old(Valid()) {
        AddKeepsIdsUnique(bookmarks, paper);
      }
      AddedIsBookmarked(bookmarks, paper);
      bookmarks := WithBookmark(bookmarks, paper);
    }

    /** `removeBookmark(id)` */
    method RemoveBookmark(id: string)
      modifies this
      ensures bookmarks == WithoutBookmark(old(bookmarks), id)
      ensures !IsBookmarked(id)
      ensures old(Valid()) ==> Valid()
    {
      if old(Valid()) {
        RemoveKeepsIdsUnique(bookmarks, id);
      }
      bookmarks := WithoutBookmark(bookmarks, id);
    }
  }
}
