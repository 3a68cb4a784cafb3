/** The single-file note search (components/SearchNotes.tsx): the same query filter as the
    paged search, without pages; the header counts every note, a clear button empties the
    query, and titles, descriptions and `#tag`s are highlighted. */
module LegacySearchNotes {
  import opened Wrappers
  import opened Notes
  import opened Highlight
  import SearchNotes

  /** One list item: the slug it links to and its highlighted title, description and tags. */
  datatype Item = Item(
    slug: string,
    title: Result<Highlighted, PatternError>,
    description: Result<Highlighted, PatternError>,
    tags: seq<Result<Highlighted, PatternError>>)

  datatype Body = NoMatch | Items(items: seq<Item>)

  /** The header count, whether the clear button is shown, and the body. */
  datatype View = View(headerCount: nat, showClear: bool, body: Body)

  /** The tag links of a note: `#tag` for each tag, none when `tags` is missing or empty. */
  function TagLinks(note: Note, search: string): (r: seq<Result<Highlighted, PatternError>>)
    ensures |r| == |TagsOrEmpty(note)|
    ensures forall i | 0 <= i < |r| :: r[i] == Highlight.Highlight("#" + TagsOrEmpty(note)[i], search)
  {
    var tags := TagsOrEmpty(note);
    seq(|tags|, i requires 0 <= i < |tags| => Highlight.Highlight("#" + tags[i], search))
  }

  /** One list item: it links to the note's slug, has one tag link per tag, and with an empty
      query shows the title and description unsegmented. */
  function RenderItem(note: Note, search: string): (r: Item)
    ensures r.slug == note.slug && |r.tags| == |TagsOrEmpty(note)|
    ensures search == "" ==>
      r.title == Success(Unsegmented(note.title)) && r.description == Success(Unsegmented(note.description))
  {
    Item(note.slug, Highlight.Highlight(note.title, search), Highlight.Highlight(note.description, search), TagLinks(note, search))
  }

  /** The component's output for a query. */
  function Render(notes: seq<Note>, search: string): (v: View)
    ensures v.headerCount == |notes|
    ensures v.showClear <==> search != ""
    ensures v.body.NoMatch? <==> SearchNotes.FilterNotes(notes, search) == []
    ensures v.body.Items? ==>
      |v.body.items| == |SearchNotes.FilterNotes(notes, search)|
      && forall i | 0 <= i < |v.body.items| :: v.body.items[i] == RenderItem(SearchNotes.FilterNotes(notes, search)[i], search)
  {
    var filtered := SearchNotes.FilterNotes(notes, search);
    var body := if |filtered| == 0 then NoMatch
      else Items(seq(|filtered|, i requires 0 <= i < |filtered| => RenderItem(filtered[i], search)));
    View(|notes|, search != "", body)
  }

  /** The header counts every note, whatever the query: it does not follow the filter. */
  lemma HeaderIgnoresQuery(notes: seq<Note>, a: string, b: string)
    ensures Render(notes, a).headerCount == Render(notes, b).headerCount
  {
  }

  /** With an empty query every note is listed and nothing is highlighted. */
  lemma EmptyQueryListsAll(notes: seq<Note>)
    requires notes != []
    ensures Render(notes, "").body.Items?
    ensures |Render(notes, "").body.items| == |notes|
    ensures forall i | 0 <= i < |notes| :: Render(notes, "").body.items[i].title == Success(Unsegmented(notes[i].title))
  {
    SearchNotes.EmptyQueryKeepsAll(notes);
  }

  /** The component's state: the query over a fixed note list. */
  class LegacySearchState {
    const notes: seq<Note>
    var search: string

    constructor (notes: seq<Note>)
      ensures this.notes == notes && search == ""
    {
      this.notes := notes;
      search := "";
    }

    function Current(): View
      reads this
    {
      Render(notes, search)
    }

    /** The input's `onChange`. */
    method SetSearch(q: string)
      modifies this
      ensures search == q
    {
      search := q;
    }

    /** `handleClear`: empties the query, which hides the clear button and lists every note. */
    method HandleClear()
      modifies this
      ensures search == ""
      ensures !Current().showClear
      ensures Current().body.Items? ==> |Current().body.items| == |notes|
    {
      search := "";
      SearchNotes.EmptyQueryKeepsAll(notes);
    }
  }
}
