/** `getNoteMetadata(slug)`: reads a note's source, compiles it to obtain its frontmatter and
    builds the page metadata from the frontmatter title and description, with defaults. The
    file read and the compiler are passed in as results. */
module NoteMetadata {
  import opened Wrappers
  import opened SiteMetadata
  import Uri

  const DefaultTitle := "預設標題"
  const DefaultDescription := "預設描述"

  /** A frontmatter field: absent (`undefined`), `null`, or a string. */
  datatype Field = Absent | Null | Text(s: string)

  datatype Frontmatter = Frontmatter(title: Field, description: Field)

  /** `field ?? fallback`: only `undefined` and `null` fall back; the empty string is kept. */
  function OrDefault(f: Field, fallback: string): (r: string)
    ensures f.Text? ==> r == f.s
    ensures !f.Text? ==> r == fallback
  {
    match f
    case Text(s) => s
    case _ => fallback
  }

  /** The record built from a parsed frontmatter. */
  function MetadataOf(fm: Frontmatter): (m: PageMetadata)
    ensures Consistent(m)
    ensures m.title == OrDefault(fm.title, DefaultTitle)
    ensures m.description == OrDefault(fm.description, DefaultDescription)
    ensures m.openGraph.images[0].alt == m.title
    ensures m.openGraph.images[0].url == OgEndpoint + Uri.Encode(m.title)
  {
    var title := OrDefault(fm.title, DefaultTitle);
    var description := OrDefault(fm.description, DefaultDescription);
    Social(title, description, title, OgEndpoint + Uri.Encode(title))
  }

  /** `getNoteMetadata`: `read` stands for `fs.readFile` and `compile` for `compileMDX`;
      a failure of either reaches the caller unchanged. */
  function GetNoteMetadata<E>(read: Result<string, E>, compile: string -> Result<Frontmatter, E>): (r: Result<PageMetadata, E>)
    ensures read.Failure? ==> r == Failure(read.error)
    ensures read.Success? && compile(read.value).Failure? ==> r == Failure(compile(read.value).error)
    ensures read.Success? && compile(read.value).Success? ==> r == Success(MetadataOf(compile(read.value).value))
  {
    match read
    case Failure(e) => Failure(e)
    case Success(source) =>
      match compile(source)
      case Failure(e) => Failure(e)
      case Success(fm) => Success(MetadataOf(fm))
  }

  /** An empty frontmatter title is kept as it is, not replaced by the default. */
  lemma EmptyTitleKept(fm: Frontmatter)
    requires fm.title == Text("")
    ensures MetadataOf(fm).title == ""
    ensures MetadataOf(fm).openGraph.images[0].url == OgEndpoint
  {
  }

  /** The image URL's query decodes back to the page title. */
  lemma OgQueryIsTitle(fm: Frontmatter)
    ensures Uri.Decode(MetadataOf(fm).openGraph.images[0].url[|OgEndpoint|..]) == Some(MetadataOf(fm).title)
  {
    var m := MetadataOf(fm);
    assert m.openGraph.images[0].url[|OgEndpoint|..] == Uri.Encode(m.title);
    Uri.DecodeEncode(m.title);
  }
}
