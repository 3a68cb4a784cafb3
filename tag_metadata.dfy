/** `getTagMetadata(tag)`: the metadata of a tag page, built from the percent-decoded tag. */
module TagMetadata {
  import opened Wrappers
  import opened SiteMetadata
  import Uri

  const SiteName := "你的網站名稱"

  function TagTitle(decoded: string): string {
    "#" + decoded + " - " + SiteName
  }

  function TagDescription(decoded: string): string {
    "這是關於「" + decoded + "」的筆記列表。"
  }

  /** The Open Graph image URL: the endpoint followed by the encoded `#tag`. */
  function TagOgUrl(decoded: string): string {
    OgEndpoint + Uri.Encode("#" + decoded)
  }

  /** `getTagMetadata`; None where `decodeURIComponent` throws. */
  function GetTagMetadata(tag: string): (r: Option<PageMetadata>)
    ensures r.None? <==> Uri.Decode(tag).None?
    ensures r.Some? ==>
      var d := Uri.Decode(tag).value;
      Consistent(r.value)
      && r.value.title == TagTitle(d) && r.value.description == TagDescription(d)
      && r.value.openGraph.images[0].alt == d
      && r.value.openGraph.images[0].url == TagOgUrl(d)
  {
    match Uri.Decode(tag)
    case None => None
    case Some(d) => Some(Social(TagTitle(d), TagDescription(d), d, TagOgUrl(d)))
  }

  /** The image URL's query decodes back to `#` and the tag. */
  lemma OgQueryRoundTrip(decoded: string)
    ensures TagOgUrl(decoded)[..|OgEndpoint|] == OgEndpoint
    ensures Uri.Decode(TagOgUrl(decoded)[|OgEndpoint|..]) == Some("#" + decoded)
  {
    assert TagOgUrl(decoded)[|OgEndpoint|..] == Uri.Encode("#" + decoded);
    Uri.DecodeEncode("#" + decoded);
  }

  /** A page reached through an encoded tag is described in terms of that tag. */
  lemma MetadataOfEncodedTag(t: string)
    ensures GetTagMetadata(Uri.Encode(t)) == Some(Social(TagTitle(t), TagDescription(t), t, TagOgUrl(t)))
  {
    Uri.DecodeEncode(t);
  }

  /** Distinct tags get distinct titles. */
  lemma TagTitleInjective(a: string, b: string)
    requires TagTitle(a) == TagTitle(b)
    ensures a == b
  {
    var n := |" - " + SiteName|;
    assert a == TagTitle(a)[1..|TagTitle(a)| - n];
    assert b == TagTitle(b)[1..|TagTitle(b)| - n];
  }
}
