/** The sitemap generator: the URL list (two static paths, then one path per note folder
    whose frontmatter has a truthy title) and its serialisation in the Sitemaps 0.9 XML format.
    Reading the folders and parsing each frontmatter are passed in. */
module Sitemap {
  import opened Wrappers
  import opened Seqs
  import opened JsValues
  import opened BlockText

  const Domain := "https://ericchen-website-pro.vercel.app/"
  const StaticPaths: seq<string> := ["", "/tags"]
  const NotesPrefix := "/notes/"

  const Header := "<?xml version=\"1.0\" encoding=\"UTF-8\"?>\n<urlset xmlns=\"http://www.sitemaps.org/schemas/sitemap/0.9\">\n"
  const Footer := "\n</urlset>"
  const EntryOpen := "\n  <url>\n    <loc>"
  const EntryClose := "</loc>\n  </url>"

  /** Whether a folder is listed: its read and parse succeed (`Some` of the frontmatter
      `title`) and the title is truthy. */
  predicate Listed(titleOf: string -> Option<Value>, folder: string) {
    titleOf(folder).Some? && Truthy(titleOf(folder).value)
  }

  /** `noteUrls.filter(Boolean)`: `/notes/<folder>` for each listed folder, in folder order. */
  function NoteUrls(folders: seq<string>, titleOf: string -> Option<Value>): (r: seq<string>)
    ensures |r| <= |folders|
    ensures forall u | u in r :: exists f :: f in folders && Listed(titleOf, f) && u == NotesPrefix + f
    ensures forall f | f in folders && Listed(titleOf, f) :: NotesPrefix + f in r
  {
    if folders == [] then []
    else
      var rest := NoteUrls(folders[1..], titleOf);
      assert forall f | f in folders[1..] :: f in folders;
      if Listed(titleOf, folders[0]) then [NotesPrefix + folders[0]] + rest else rest
  }

  function Prefixed(fs: seq<string>): (r: seq<string>)
    ensures |r| == |fs| && forall i | 0 <= i < |fs| :: r[i] == NotesPrefix + fs[i]
  {
    seq(|fs|, i requires 0 <= i < |fs| => NotesPrefix + fs[i])
  }

  /** The note URLs are the listed folders, in order, each under `/notes/`. */
  lemma {:induction false} NoteUrlsAreListedFolders(folders: seq<string>, titleOf: string -> Option<Value>)
    ensures NoteUrls(folders, titleOf) == Prefixed(Filter(folders, f => Listed(titleOf, f)))
  {
    if folders != [] {
      NoteUrlsAreListedFolders(folders[1..], titleOf);
    }
  }

  /** `[...staticPaths, ...noteUrls.filter(Boolean)]`. */
  function Urls(folders: seq<string>, titleOf: string -> Option<Value>): (r: seq<string>)
    ensures |r| == 2 + |NoteUrls(folders, titleOf)|
    ensures r[..2] == StaticPaths && r[2..] == NoteUrls(folders, titleOf)
  {
    StaticPaths + NoteUrls(folders, titleOf)
  }

  /** One `<url>` block. */
  function Entry(url: string): string {
    EntryOpen + Domain + url + EntryClose
  }

  function Entries(urls: seq<string>): (r: string)
    ensures r == Blocks(urls, EntryOpen + Domain, EntryClose)
  {
    if urls == [] then "" else
      assert Entry(urls[0]) == (EntryOpen + Domain) + urls[0] + EntryClose;
      Entry(urls[0]) + Entries(urls[1..])
  }

  /** The sitemap document: the XML declaration with the `urlset` opening, the blocks, and
      the closing `</urlset>`. */
  function SitemapXml(urls: seq<string>): (xml: string)
    ensures |xml| >= |Header| + |Footer|
    ensures xml[..|Header|] == Header && xml[|xml| - |Footer|..] == Footer
    ensures xml[|Header|..|xml| - |Footer|] == Blocks(urls, EntryOpen + Domain, EntryClose)
  {
    var xml := Header + Entries(urls) + Footer;
    assert xml[..|Header|] == Header;
    assert xml[|xml| - |Footer|..] == Footer;
    assert xml[|Header|..|xml| - |Footer|] == Entries(urls);
    xml
  }

  /** Since the domain ends in `/`, a note's `<loc>` holds `//notes/` right after the host. */
  lemma DoubleSlashInNoteLoc(folder: string)
    ensures (Domain + NotesPrefix + folder)[|Domain| - 1..|Domain| + 7] == "//notes/"
  {
    var loc := Domain + NotesPrefix + folder;
    assert loc[|Domain| - 1] == '/';
    assert loc[|Domain|..|Domain| + 7] == NotesPrefix;
  }

  // ---- Reading the document back ----

  /** The URLs of a sitemap document; None when it is not one. */
  function ParseSitemap(xml: string): Option<seq<string>> {
    if |xml| < |Header| + |Footer| || xml[..|Header|] != Header || xml[|xml| - |Footer|..] != Footer then None
    else ParseBlocks(xml[|Header|..|xml| - |Footer|], EntryOpen + Domain, EntryClose)
  }

  /** The document holds exactly one `<url>` block per URL, in list order, between the XML
      declaration with the `urlset` opening and the closing `</urlset>`. */
  lemma SitemapRoundTrip(urls: seq<string>)
    requires forall u | u in urls :: '<' !in u
    ensures ParseSitemap(SitemapXml(urls)) == Some(urls)
  {
    assert EntryClose[0] == '<';
    ParseBlocksOf(urls, EntryOpen + Domain, EntryClose);
  }

  /** Every URL the generator lists is free of `<`, so the generated sitemap reads back to its list. */
  lemma GeneratedSitemapRoundTrip(folders: seq<string>, titleOf: string -> Option<Value>)
    requires forall f | f in folders :: '<' !in f
    ensures ParseSitemap(SitemapXml(Urls(folders, titleOf))) == Some(Urls(folders, titleOf))
  {
    var urls := Urls(folders, titleOf);
    forall u | u in urls ensures '<' !in u {
      if u in NoteUrls(folders, titleOf) {
        var f :| f in folders && Listed(titleOf, f) && u == NotesPrefix + f;
        assert u == NotesPrefix + f;
      }
    }
    SitemapRoundTrip(urls);
  }
}
