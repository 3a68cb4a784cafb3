/** `getAllNotes`: lists the note directories, loads each one's exported metadata, normalises
    it into an index entry and skips a directory whose load throws. The directory listing and
    the module loader are passed in. */
module AllNotes {
  import opened Wrappers
  import opened Seqs
  import opened JsValues
  import opened Notes

  /** The `metadata` object a note module exports; an absent field is `Undefined`. */
  datatype Metadata = Metadata(title: Value, description: Value, tags: Value)

  /** A loaded note module; `metadata == None` when the export is missing or falsy. */
  datatype NoteModule = NoteModule(metadata: Option<Metadata>)

  /** `mod.metadata || {}`. */
  function MetadataOrEmpty(m: NoteModule): Metadata {
    if m.metadata.Some? then m.metadata.value else Metadata(Undefined, Undefined, Undefined)
  }

  /** `Array.isArray(metadata.tags) ? metadata.tags : []`. */
  function TagsOrNone(v: Value): (r: seq<string>)
    ensures v.StrList? ==> r == v.items
    ensures !v.StrList? ==> r == []
  {
    if v.StrList? then v.items else []
  }

  /** The index entry pushed for directory `dir` whose module loaded as `m`. */
  function Entry(dir: string, m: NoteModule): (r: Note)
    ensures r.slug == dir && r.tags.Some? && r.date.None?
    ensures r.title == StringOrEmpty(MetadataOrEmpty(m).title)
    ensures r.description == StringOrEmpty(MetadataOrEmpty(m).description)
    ensures r.tags.value == TagsOrNone(MetadataOrEmpty(m).tags)
  {
    var md := MetadataOrEmpty(m);
    Note(dir, StringOrEmpty(md.title), StringOrEmpty(md.description), Some(TagsOrNone(md.tags)), None)
  }

  /** A module without metadata gives an entry with empty title, description and tags. */
  lemma EntryWithoutMetadata(dir: string)
    ensures Entry(dir, NoteModule(None)) == Note(dir, "", "", Some([]), None)
  {
  }

  /** `true` for a directory whose module loads. */
  predicate Loads(load: string -> Option<NoteModule>, dir: string) {
    load(dir).Some?
  }

  /** The entries accumulated after visiting `dirs` in order. */
  function NotesFrom(dirs: seq<string>, load: string -> Option<NoteModule>): (r: seq<Note>)
    ensures |r| <= |dirs|
  {
    if dirs == [] then []
    else
      var init, last := dirs[..|dirs| - 1], dirs[|dirs| - 1];
      match load(last)
      case None => NotesFrom(init, load)
      case Some(m) => NotesFrom(init, load) + [Entry(last, m)]
  }

  /** `getAllNotes()`. The listing stands for `fs.readdir`, whose failure is not caught and
      reaches the caller; `load` stands for the dynamic import, `None` where it throws. */
  method GetAllNotes<E>(listing: Result<seq<string>, E>, load: string -> Option<NoteModule>)
    returns (r: Result<seq<Note>, E>)
    ensures listing.Failure? ==> r == Failure(listing.error)
    ensures listing.Success? ==> r == Success(NotesFrom(listing.value, load))
  {
    if listing.Failure? {
      return Failure(listing.error);
    }
    var dirs := listing.value;
    var notes: seq<Note> := [];
    for i := 0 to |dirs|
      invariant notes == NotesFrom(dirs[..i], load)
    {
      assert dirs[..i + 1] == dirs[..i] + [dirs[i]];
      NotesFromSnoc(dirs[..i], dirs[i], load);
      var dir := dirs[i];
      var mod := load(dir);
      if mod.Some? {
        notes := notes + [Entry(dir, mod.value)];
      }
    }
    assert dirs[..|dirs|] == dirs;
    return Success(notes);
  }

  /** The index of a concatenated listing is the concatenation of the indexes: a failed
      directory does not stop the directories after it. */
  lemma {:induction false} NotesFromAppend(a: seq<string>, b: seq<string>, load: string -> Option<NoteModule>)
    ensures NotesFrom(a + b, load) == NotesFrom(a, load) + NotesFrom(b, load)
    decreases |b|
  {
    if b == [] {
      assert a + b == a;
    } else {
      var init := b[..|b| - 1];
      assert (a + b)[..|a + b| - 1] == a + init;
      NotesFromAppend(a, init, load);
    }
  }

  /** `notes.map(n => n.slug)`. */
  function Slugs(notes: seq<Note>): (r: seq<string>)
    ensures |r| == |notes| && forall i | 0 <= i < |notes| :: r[i] == notes[i].slug
  {
    seq(|notes|, i requires 0 <= i < |notes| => notes[i].slug)
  }

  lemma SlugsAppend(a: seq<Note>, b: seq<Note>)
    ensures Slugs(a + b) == Slugs(a) + Slugs(b)
  {
  }

  /** The slugs of the index are the directories that load, in listing order. */
  lemma {:induction false} SlugsAreLoadedDirs(dirs: seq<string>, load: string -> Option<NoteModule>)
    ensures Slugs(NotesFrom(dirs, load)) == Filter(dirs, d => Loads(load, d))
  {
    if dirs != [] {
      var init := dirs[..|dirs| - 1];
      assert dirs == init + [dirs[|dirs| - 1]];
      SlugsAreLoadedDirs(init, load);
      SlugsSnoc(init, dirs[|dirs| - 1], load);
    }
  }

  /** One more directory of the listing adds its entry when its module loads. */
  lemma NotesFromSnoc(init: seq<string>, last: string, load: string -> Option<NoteModule>)
    ensures NotesFrom(init + [last], load) ==
      NotesFrom(init, load) + (if load(last).Some? then [Entry(last, load(last).value)] else [])
  {
    assert (init + [last])[..|init|] == init;
  }

  lemma SlugsSnoc(init: seq<string>, last: string, load: string -> Option<NoteModule>)
    requires Slugs(NotesFrom(init, load)) == Filter(init, d => Loads(load, d))
    ensures Slugs(NotesFrom(init + [last], load)) == Filter(init + [last], d => Loads(load, d))
  {
    NotesFromSnoc(init, last, load);
    FilterSnoc(init, last, d => Loads(load, d));
    var added := if load(last).Some? then [Entry(last, load(last).value)] else [];
    SlugsAppend(NotesFrom(init, load), added);
  }

  /** Every entry is the normalised metadata of a listed directory that loads. */
  lemma {:induction false} EntriesAreNormalised(dirs: seq<string>, load: string -> Option<NoteModule>)
    ensures forall n | n in NotesFrom(dirs, load) ::
      n.slug in dirs && load(n.slug).Some? && n == Entry(n.slug, load(n.slug).value)
  {
    if dirs != [] {
      var init, last := dirs[..|dirs| - 1], dirs[|dirs| - 1];
      EntriesAreNormalised(init, load);
      assert forall d | d in init :: d in dirs;
    }
  }
}
