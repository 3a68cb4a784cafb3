/** `getNotesByTag(tag)`: the route parameter is percent-decoded, then the notes whose
    `tags` array holds the decoded tag, compared exactly, are kept in their original order. */
module NotesByTag {
  import opened Wrappers
  import opened Seqs
  import opened Notes
  import Uri

  /** `Array.isArray(note.tags) && note.tags.includes(tag)`. */
  predicate HasTag(note: Note, tag: string) {
    note.tags.Some? && tag in note.tags.value
  }

  /** The notes carrying `tag`, in their original order. */
  function TaggedWith(notes: seq<Note>, tag: string): (r: seq<Note>)
    ensures IsSubsequence(r, notes)
    ensures forall n | n in r :: n in notes && HasTag(n, tag)
    ensures forall n | n in notes && HasTag(n, tag) :: n in r
    ensures forall n :: multiset(r)[n] == if HasTag(n, tag) then multiset(notes)[n] else 0
  {
    FilterIsSubsequence(notes, n => HasTag(n, tag));
    forall n ensures multiset(Filter(notes, n => HasTag(n, tag)))[n] == if HasTag(n, tag) then multiset(notes)[n] else 0 {
      FilterCount(notes, n => HasTag(n, tag), n);
    }
    Filter(notes, n => HasTag(n, tag))
  }

  /** `getNotesByTag`, with the note list passed in; None where `decodeURIComponent` throws. */
  function NotesByTag(allNotes: seq<Note>, tag: string): (r: Option<seq<Note>>)
    ensures Uri.Decode(tag).None? <==> r.None?
    ensures r.Some? ==> r.value == TaggedWith(allNotes, Uri.Decode(tag).value)
  {
    match Uri.Decode(tag)
    case None => None
    case Some(decoded) => Some(TaggedWith(allNotes, decoded))
  }

  /** A tag sent through `encodeURIComponent` selects exactly the notes carrying it. */
  lemma NotesByEncodedTag(allNotes: seq<Note>, tag: string)
    ensures NotesByTag(allNotes, Uri.Encode(tag)) == Some(TaggedWith(allNotes, tag))
  {
    Uri.DecodeEncode(tag);
  }

  /** A parameter without `%` is compared as it is. */
  lemma NotesByPlainTag(allNotes: seq<Note>, tag: string)
    requires '%' !in tag
    ensures NotesByTag(allNotes, tag) == Some(TaggedWith(allNotes, tag))
  {
    Uri.DecodeWithoutPercent(tag);
  }

  /** `tag%20with%20space` is decoded to `tag with space` before matching. */
  lemma DecodeSpacedTag(a: string, b: string, c: string)
    requires a == "tag" && b == "with" && c == "space"
    ensures Uri.Decode(a + "%20" + b + "%20" + c) == Some(a + " " + b + " " + c)
  {
    Uri.DecodeWithoutPercent(c);
    DecodeSpace(b, c);
    assert a + "%20" + b + "%20" + c == a + "%20" + (b + "%20" + c);
    DecodeSpace(a, b + "%20" + c);
    assert a + " " + (b + " " + c) == a + " " + b + " " + c;
  }

  /** `%20` after a `%`-free piece decodes to a space. */
  lemma {:induction false} DecodeSpace(a: string, b: string)
    requires '%' !in a
    ensures Uri.Decode(b).Some? ==> Uri.Decode(a + "%20" + b) == Some(a + " " + Uri.Decode(b).value)
  {
    if a == [] {
      assert a + "%20" + b == "%20" + b;
      DecodeLeadingSpace(b);
      if Uri.Decode(b).Some? {
        assert a + " " + Uri.Decode(b).value == " " + Uri.Decode(b).value;
      }
    } else {
      var s := a + "%20" + b;
      assert s[1..] == a[1..] + "%20" + b;
      assert a[0] in a;
      DecodeSpace(a[1..], b);
      if Uri.Decode(b).Some? {
        var rest := a[1..] + " " + Uri.Decode(b).value;
        Uri.DecodeStep(s, a[0], 1, rest);
        assert [a[0]] + rest == a + " " + Uri.Decode(b).value;
      }
    }
  }

  lemma DecodeLeadingSpace(b: string)
    ensures Uri.Decode(b).Some? ==> Uri.Decode("%20" + b) == Some(" " + Uri.Decode(b).value)
  {
    var s := "%20" + b;
    assert Uri.EncodeChar(' ') == "%20" by {
      assert !Uri.IsUnescaped(' ');
      assert Uri.Utf8(' ') == [32];
    }
    Uri.DecodeUnitOfEncoded(' ', b);
    assert s[3..] == b;
    if Uri.Decode(b).Some? {
      Uri.DecodeStep(s, ' ', 3, Uri.Decode(b).value);
    }
  }

  /** Matching is exact: a note tagged only `TagX` is not found under `tagx`. */
  lemma CaseSensitive(note: Note)
    requires note.tags == Some(["TagX"])
    ensures TaggedWith([note], "tagx") == []
  {
    assert "tagx" != "TagX" by { assert "tagx"[0] != "TagX"[0]; }
    assert !HasTag(note, "tagx");
  }

  /** Notes without a `tags` array never match, and when no note carries the tag the result is empty. */
  lemma NoCarrierNoResult(allNotes: seq<Note>, tag: string)
    requires forall n | n in allNotes :: !HasTag(n, tag)
    ensures TaggedWith(allNotes, tag) == []
  {
    FilterNone(allNotes, n => HasTag(n, tag));
  }
}
