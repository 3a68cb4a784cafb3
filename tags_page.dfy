/** The tag routes: `generateStaticParams` lists one percent-encoded parameter per distinct
    tag, `generateMetadata` titles the page after the decoded tag, and `TagPage` lists the
    notes carrying it or signals "not found". */
module TagsPage {
  import opened Wrappers
  import opened Seqs
  import opened Notes
  import opened NotesByTag
  import Uri

  /** `notes.flatMap(note => note.tags ?? [])`. */
  function AllTags(notes: seq<Note>): (r: seq<string>)
    ensures forall n, t | n in notes && t in TagsOrEmpty(n) :: t in r
    ensures forall t | t in r :: exists n :: n in notes && t in TagsOrEmpty(n)
  {
    var ss := seq(|notes|, i requires 0 <= i < |notes| => TagsOrEmpty(notes[i]));
    forall n | n in notes ensures exists i :: 0 <= i < |notes| && ss[i] == TagsOrEmpty(n) {
      var i :| 0 <= i < |notes| && notes[i] == n;
      assert ss[i] == TagsOrEmpty(n);
    }
    Flatten(ss)
  }

  /** The tags come note by note, each note's tags in their own order. */
  lemma AllTagsAppend(a: seq<Note>, b: seq<Note>)
    ensures AllTags(a + b) == AllTags(a) + AllTags(b)
  {
    var sa := seq(|a|, i requires 0 <= i < |a| => TagsOrEmpty(a[i]));
    var sb := seq(|b|, i requires 0 <= i < |b| => TagsOrEmpty(b[i]));
    assert seq(|a + b|, i requires 0 <= i < |a + b| => TagsOrEmpty((a + b)[i])) == sa + sb;
    FlattenAppend(sa, sb);
  }

  lemma AllTagsSingle(n: Note)
    ensures AllTags([n]) == TagsOrEmpty(n)
  {
    var ss := seq(1, i requires 0 <= i < 1 => TagsOrEmpty([n][i]));
    assert ss == [TagsOrEmpty(n)];
    assert Flatten(ss[1..]) == [];
  }

  /** `Array.from(new Set(allTags))`. */
  function UniqueTags(notes: seq<Note>): (r: seq<string>)
    ensures NoDup(r)
    ensures forall t | t in r :: t in AllTags(notes)
    ensures forall t | t in AllTags(notes) :: t in r
  {
    Dedup(AllTags(notes))
  }

  /** The route parameter record `{ tag }`. */
  datatype TagParams = TagParams(tag: string)

  /** `generateStaticParams`, with the note list passed in. */
  function StaticParams(notes: seq<Note>): (r: seq<TagParams>)
    ensures |r| == |UniqueTags(notes)|
    ensures forall i | 0 <= i < |r| :: r[i].tag == Uri.Encode(UniqueTags(notes)[i])
    ensures forall i | 0 <= i < |r| :: Uri.Decode(r[i].tag) == Some(UniqueTags(notes)[i])
    ensures NoDup(r)
  {
    var u := UniqueTags(notes);
    var r := seq(|u|, i requires 0 <= i < |u| => TagParams(Uri.Encode(u[i])));
    forall i | 0 <= i < |r| ensures Uri.Decode(r[i].tag) == Some(u[i]) {
      Uri.DecodeEncode(u[i]);
    }
    r
  }

  /** The static parameters name every tag some note carries, each exactly once. */
  lemma StaticParamsCoverTags(notes: seq<Note>, n: Note, t: string)
    requires n in notes && t in TagsOrEmpty(n)
    ensures exists i :: 0 <= i < |StaticParams(notes)| && Uri.Decode(StaticParams(notes)[i].tag) == Some(t)
  {
    var u := UniqueTags(notes);
    assert t in u;
    var i :| 0 <= i < |u| && u[i] == t;
    assert Uri.Decode(StaticParams(notes)[i].tag) == Some(t);
  }

  /** The `title` and `description` of a tag page. */
  datatype TagPageMetadata = TagPageMetadata(title: string, description: string)

  function TitleFor(tag: string): string {
    "#" + tag + " 筆記標籤分類"
  }

  function DescriptionFor(tag: string): string {
    "關於 " + tag + " 的所有筆記"
  }

  /** `generateMetadata`; None where `decodeURIComponent` throws. */
  function Metadata(param: TagParams): (r: Option<TagPageMetadata>)
    ensures r.None? <==> Uri.Decode(param.tag).None?
    ensures r.Some? ==> r.value == TagPageMetadata(TitleFor(Uri.Decode(param.tag).value), DescriptionFor(Uri.Decode(param.tag).value))
  {
    match Uri.Decode(param.tag)
    case None => None
    case Some(decoded) => Some(TagPageMetadata(TitleFor(decoded), DescriptionFor(decoded)))
  }

  /** The title tells tags apart: two tags with the same page title are the same tag. */
  lemma TitleForInjective(a: string, b: string)
    requires TitleFor(a) == TitleFor(b)
    ensures a == b
  {
    var sfx := " 筆記標籤分類";
    assert |a| == |b|;
    assert a == TitleFor(a)[1..|TitleFor(a)| - |sfx|];
    assert b == TitleFor(b)[1..|TitleFor(b)| - |sfx|];
  }

  /** Each static parameter's page is titled after the tag it was generated from. */
  lemma MetadataOfStaticParam(notes: seq<Note>, i: int)
    requires 0 <= i < |StaticParams(notes)|
    ensures Metadata(StaticParams(notes)[i]) == Some(TagPageMetadata(TitleFor(UniqueTags(notes)[i]), DescriptionFor(UniqueTags(notes)[i])))
  {
  }

  /** What `TagPage` renders: the decoded tag, the count and the notes. */
  datatype TagView = TagView(tag: string, count: nat, notes: seq<Note>)

  /** `notFound()`, or the URIError thrown by `decodeURIComponent`. */
  datatype TagPageError = MalformedParam | NotFound

  /** `TagPage`, with the note list passed in. */
  function TagPage(allNotes: seq<Note>, param: TagParams): (r: Result<TagView, TagPageError>)
    ensures r == Failure(MalformedParam) <==> Uri.Decode(param.tag).None?
    ensures r == Failure(NotFound) <==> NotesByTag.NotesByTag(allNotes, param.tag) == Some([])
    ensures r.Success? ==>
      Uri.Decode(param.tag) == Some(r.value.tag)
      && r.value.notes == TaggedWith(allNotes, r.value.tag)
      && r.value.notes != []
      && r.value.count == |r.value.notes|
  {
    match Uri.Decode(param.tag)
    case None => Failure(MalformedParam)
    case Some(decoded) =>
      var filtered := TaggedWith(allNotes, decoded);
      if |filtered| == 0 then Failure(NotFound)
      else Success(TagView(decoded, |filtered|, filtered))
  }

  /** Every pre-generated tag page exists: it lists at least one note. */
  lemma {:induction false} StaticParamsHavePages(notes: seq<Note>, p: TagParams)
    requires p in StaticParams(notes)
    ensures TagPage(notes, p).Success?
    ensures TagPage(notes, p).value.count >= 1
  {
    var r := StaticParams(notes);
    var i :| 0 <= i < |r| && r[i] == p;
    var t := UniqueTags(notes)[i];
    assert Uri.Decode(p.tag) == Some(t);
    assert t in AllTags(notes);
    var n :| n in notes && t in TagsOrEmpty(n);
    assert HasTag(n, t);
    assert n in TaggedWith(notes, t);
  }
}
