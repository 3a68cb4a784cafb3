/** Text made of a run of blocks, each an item written between an opening and a closing
    marker, and the reader that takes such text apart again. */
module BlockText {
  import opened Wrappers

  /** `items.map(x => open + x + close).join('')`. */
  function Blocks(items: seq<string>, open: string, close: string): string {
    if items == [] then "" else open + items[0] + close + Blocks(items[1..], open, close)
  }

  /** The longest prefix of `s` without `<`. */
  function UpToTag(s: string): (r: string)
    ensures |r| <= |s| && r == s[..|r|] && '<' !in r
    ensures |r| < |s| ==> s[|r|] == '<'
  {
    if s == [] || s[0] == '<' then [] else [s[0]] + UpToTag(s[1..])
  }

  lemma {:induction false} UpToTagOf(url: string, rest: string)
    requires '<' !in url && rest != [] && rest[0] == '<'
    ensures UpToTag(url + rest) == url
  {
    if url != [] {
      assert (url + rest)[1..] == url[1..] + rest;
      UpToTagOf(url[1..], rest);
    }
  }

  /** The first block of `s`: its item, up to the first `<` after `open`, and the text after
      its `close`; None when `s` does not start with such a block. */
  function ParseBlock(s: string, open: string, close: string): (r: Option<(string, string)>)
    ensures r.Some? ==> |r.value.1| < |s|
  {
    if |s| < |open| || s[..|open|] != open then None
    else
      var item := UpToTag(s[|open|..]);
      var after := s[|open| + |item|..];
      if close == [] || |after| < |close| || after[..|close|] != close then None
      else Some((item, after[|close|..]))
  }

  /** The contents of a sequence of blocks written between `open` and `close`, where `close`
      starts with `<`; None when the text is not such a sequence. */
  function ParseBlocks(s: string, open: string, close: string): Option<seq<string>>
    decreases |s|
  {
    if s == [] then Some([])
    else match ParseBlock(s, open, close)
      case None => None
      case Some((item, rest)) =>
        match ParseBlocks(rest, open, close)
        case None => None
        case Some(items) => Some([item] + items)
  }

  /** A block whose item holds no `<` reads back as that item and the text after it. */
  lemma ParseBlockOf(u: string, rest: string, open: string, close: string)
    requires close != [] && close[0] == '<' && '<' !in u
    ensures ParseBlock(open + u + close + rest, open, close) == Some((u, rest))
  {
    var s := open + u + close + rest;
    assert s == open + (u + (close + rest));
    assert s[..|open|] == open;
    assert s[|open|..] == u + (close + rest);
    UpToTagOf(u, close + rest);
    var after := s[|open| + |u|..];
    assert after == close + rest;
    assert after[..|close|] == close && after[|close|..] == rest;
  }

  /** Reading one block off the front. */
  lemma ParseBlocksStep(u: string, rest: string, xs: seq<string>, open: string, close: string)
    requires close != [] && close[0] == '<' && '<' !in u
    requires ParseBlocks(rest, open, close) == Some(xs)
    ensures ParseBlocks(open + u + close + rest, open, close) == Some([u] + xs)
  {
    ParseBlockOf(u, rest, open, close);
    assert open + u + close + rest != [];
  }

  lemma {:induction false} ParseBlocksOf(items: seq<string>, open: string, close: string)
    requires close != [] && close[0] == '<'
    requires forall u | u in items :: '<' !in u
    ensures ParseBlocks(Blocks(items, open, close), open, close) == Some(items)
  {
    if items != [] {
      assert forall v | v in items[1..] :: v in items;
      ParseBlocksOf(items[1..], open, close);
      assert items[0] in items;
      ParseBlocksStep(items[0], Blocks(items[1..], open, close), items[1..], open, close);
      assert [items[0]] + items[1..] == items;
    }
  }
}
