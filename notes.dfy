/** The note record shared by the search, tag and index components. */
module Notes {
  import opened Wrappers

  /** A note: `slug`, `title`, `description`, optional `tags` and optional `date`.
      `tags == None` stands for a field that is undefined, null or not an array. */
  datatype Note = Note(slug: string, title: string, description: string, tags: Option<seq<string>>, date: Option<string>)

  /** `note.tags ?? []`. */
  function TagsOrEmpty(note: Note): seq<string> {
    if note.tags.Some? then note.tags.value else []
  }
}
