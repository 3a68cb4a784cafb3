/** The note search page (components/SearchNotes/index.tsx): a case-insensitive substring
    filter, pages of five notes, and the page state that the previous/next buttons move. */
module SearchNotes {
  import opened Wrappers
  import opened Seqs
  import opened Text
  import opened Notes

  const NotesPerPage: nat := 5

  /** The query, lowered, occurs in the lowered title, the lowered description, or some lowered tag. */
  predicate MatchesQuery(note: Note, search: string)
    ensures search == "" ==> MatchesQuery(note, search)
  {
    ContainsEmpty(Lower(note.title));
    var q := Lower(search);
    Contains(Lower(note.title), q)
    || Contains(Lower(note.description), q)
    || (note.tags.Some? && exists t :: t in note.tags.value && Contains(Lower(t), q))
  }

  /** `notes.filter(...)` with the query predicate. */
  function FilterNotes(notes: seq<Note>, search: string): (r: seq<Note>)
    ensures IsSubsequence(r, notes)
    ensures forall n | n in r :: MatchesQuery(n, search)
    ensures forall n | n in notes && MatchesQuery(n, search) :: n in r
    ensures forall n :: multiset(r)[n] == if MatchesQuery(n, search) then multiset(notes)[n] else 0
  {
    FilterIsSubsequence(notes, n => MatchesQuery(n, search));
    forall n ensures multiset(Filter(notes, n => MatchesQuery(n, search)))[n] == if MatchesQuery(n, search) then multiset(notes)[n] else 0 {
      FilterCount(notes, n => MatchesQuery(n, search), n);
    }
    Filter(notes, n => MatchesQuery(n, search))
  }

  /** An empty query keeps every note, in the original order. */
  lemma {:induction false} EmptyQueryKeepsAll(notes: seq<Note>)
    ensures FilterNotes(notes, "") == notes
  {
    forall n | n in notes
      ensures MatchesQuery(n, "")
    {
      ContainsEmpty(Lower(n.title));
    }
    FilterAll(notes, n => MatchesQuery(n, ""));
  }

  /** `Math.ceil(count / notesPerPage)`. */
  function TotalPages(count: nat): (t: nat)
    ensures t * NotesPerPage >= count
    ensures t == 0 || (t - 1) * NotesPerPage < count
  {
    (count + NotesPerPage - 1) / NotesPerPage
  }

  function Min(a: int, b: int): int {
    if a <= b then a else b
  }

  /** `s.slice((page - 1) * notesPerPage, page * notesPerPage)`; `slice` clamps both ends to the length. */
  function PageSlice<T>(s: seq<T>, page: int): (r: seq<T>)
    requires page >= 1
    ensures |r| <= NotesPerPage
    ensures (page - 1) * NotesPerPage < |s| ==> |r| == Min(NotesPerPage, |s| - (page - 1) * NotesPerPage)
    ensures (page - 1) * NotesPerPage >= |s| ==> r == []
    ensures forall k :: 0 <= k < |r| ==> r[k] == s[(page - 1) * NotesPerPage + k]
  {
    s[Min((page - 1) * NotesPerPage, |s|)..Min(page * NotesPerPage, |s|)]
  }

  /** Pages 1 to k, one after the other. */
  function PagesThrough<T>(s: seq<T>, k: nat): seq<T> {
    if k == 0 then [] else PagesThrough(s, k - 1) + PageSlice(s, k)
  }

  lemma {:induction false} PagesThroughIsPrefix<T>(s: seq<T>, k: nat)
    ensures PagesThrough(s, k) == s[..Min(k * NotesPerPage, |s|)]
  {
    if k > 0 {
      PagesThroughIsPrefix(s, k - 1);
      var a, b := Min((k - 1) * NotesPerPage, |s|), Min(k * NotesPerPage, |s|);
      assert s[..a] + s[a..b] == s[..b];
    }
  }

  /** Reading pages 1 to `totalPages` in order shows every filtered note exactly once, in order. */
  lemma PagesCoverAll<T>(s: seq<T>)
    ensures PagesThrough(s, TotalPages(|s|)) == s
  {
    PagesThroughIsPrefix(s, TotalPages(|s|));
  }

  /** The page invariant `1 <= currentPage <= max(1, totalPages)`. */
  predicate InRange(page: int, totalPages: nat) {
    1 <= page && (page <= totalPages || page == 1)
  }

  /** A page inside the range shows at least one note whenever some note matched. */
  lemma InRangePageNotEmpty<T>(s: seq<T>, page: int)
    requires InRange(page, TotalPages(|s|)) && s != []
    ensures PageSlice(s, page) != []
  {
  }

  /** What the page renders: the count line, then either the no-match message or the
      list of the visible page and, when there is more than one page, the pager. */
  datatype PagerProps = PagerProps(currentPage: int, totalPages: nat)
  datatype Body = NoMatch | Listing(items: seq<Note>, pager: Option<PagerProps>)
  datatype View = View(count: nat, body: Body)

  function Render(notes: seq<Note>, search: string, page: int): (v: View)
    requires page >= 1
    ensures v.count == |FilterNotes(notes, search)|
    ensures v.body.NoMatch? <==> FilterNotes(notes, search) == []
    ensures v.body.Listing? ==> |v.body.items| <= NotesPerPage
    ensures v.body.Listing? ==> (v.body.pager.Some? <==> |FilterNotes(notes, search)| > NotesPerPage)
    ensures v.body.Listing? && v.body.pager.Some? ==> v.body.pager.value.totalPages >= 2
    ensures v.body.Listing? ==> v.body.items == PageSlice(FilterNotes(notes, search), page)
    ensures v.body.Listing? && v.body.pager.Some? ==>
      v.body.pager.value == PagerProps(page, TotalPages(|FilterNotes(notes, search)|))
  {
    var filtered := FilterNotes(notes, search);
    var total := TotalPages(|filtered|);
    if |filtered| == 0 then View(0, NoMatch)
    else View(|filtered|, Listing(PageSlice(filtered, page),
                                  if |filtered| > NotesPerPage then Some(PagerProps(page, total)) else None))
  }

  /** Narrowing the query while on page 2 or later, to a query that matches one to five notes,
      leaves the page number where it was: the list is empty, the pager is hidden, and the
      no-match message is not shown either. */
  lemma StalePageShowsNothing(notes: seq<Note>, search: string, page: int)
    requires page >= 2 && 1 <= |FilterNotes(notes, search)| <= NotesPerPage
    ensures Render(notes, search, page).body == Listing([], None)
  {
  }

  /** The search page's state: the query and the current page over a fixed note list. */
  class SearchNotesState {
    const notes: seq<Note>
    var search: string
    var currentPage: int

    predicate Valid()
      reads this
    {
      currentPage >= 1
    }

    function Filtered(): seq<Note>
      reads this
    {
      FilterNotes(notes, search)
    }

    function Pages(): nat
      reads this
    {
      TotalPages(|Filtered()|)
    }

    function Visible(): seq<Note>
      reads this
      requires Valid()
    {
      PageSlice(Filtered(), currentPage)
    }

    predicate PageInRange()
      reads this
    {
      InRange(currentPage, Pages())
    }

    constructor (notes: seq<Note>)
      ensures this.notes == notes && search == "" && currentPage == 1
      ensures Valid() && PageInRange()
    {
      this.notes := notes;
      search := "";
      currentPage := 1;
    }

    /** `handlePrev`: go back one page unless on page 1. */
    method HandlePrev()
      requires Valid()
      modifies this`currentPage
      ensures Valid()
      ensures old(currentPage) > 1 ==> currentPage == old(currentPage) - 1
      ensures old(currentPage) <= 1 ==> currentPage == old(currentPage)
      ensures old(PageInRange()) ==> PageInRange()
    {
      if currentPage > 1 {
        currentPage := currentPage - 1;
      }
    }

    /** `handleNext`: go forward one page unless on (or past) the last page. */
    method HandleNext()
      requires Valid()
      modifies this`currentPage
      ensures Valid()
      ensures old(currentPage) < Pages() ==> currentPage == old(currentPage) + 1
      ensures old(currentPage) >= Pages() ==> currentPage == old(currentPage)
      ensures old(PageInRange()) ==> PageInRange()
    {
      if currentPage < Pages() {
        currentPage := currentPage + 1;
      }
    }

    /** `setSearch`, as the search input calls it: the query changes, the page does not. */
    method SetSearch(q: string)
      requires Valid()
      modifies this`search
      ensures Valid() && search == q && currentPage == old(currentPage)
    {
      search := q;
    }

    /** A query change that also returns to page 1, which keeps the page in range. */
    method ChangeQuery(q: string)
      requires Valid()
      modifies this`search, this`currentPage
      ensures Valid() && search == q && currentPage == 1
      ensures PageInRange()
      ensures Filtered() != [] ==> Visible() != []
    {
      search := q;
      currentPage := 1;
    }
  }

  /** Six notes, five of which mention "x" in their title. */
  function SixNotes(): seq<Note> {
    [Note("n1", "x", "", None, None), Note("n2", "x", "", None, None), Note("n3", "x", "", None, None),
     Note("n4", "x", "", None, None), Note("n5", "x", "", None, None), Note("n6", "y", "", None, None)]
  }

  lemma {:induction false} SixNotesMatchingX()
    ensures FilterNotes(SixNotes(), "x") == SixNotes()[..5]
  {
    var six, q := SixNotes(), "x";
    assert Lower(q) == q;
    forall n | n in six[..5]
      ensures MatchesQuery(n, q)
    {
      assert n.title == q;
    }
    assert Lower("y") == "y";
    assert !Contains("y", q) by {
      assert "y"[1..] == "";
      assert !Contains("", q);
      assert "y"[0] != q[0];
    }
    assert !MatchesQuery(six[5], q);
    assert six == six[..5] + [six[5]];
    FilterAppend(six[..5], [six[5]], n => MatchesQuery(n, q));
    FilterAll(six[..5], n => MatchesQuery(n, q));
  }

  /** Six notes, next to page 2, then the query "x": five notes match but page 2 is empty
      and the pager is hidden. */
  method StalePageScenario() returns (v: View)
    ensures v.count == 5 && v.body == Listing([], None)
  {
    var state := new SearchNotesState(SixNotes());
    EmptyQueryKeepsAll(SixNotes());
    state.HandleNext();
    assert state.currentPage == 2;
    state.SetSearch("x");
    SixNotesMatchingX();
    v := Render(state.notes, state.search, state.currentPage);
  }
}
