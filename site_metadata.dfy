/** The page metadata record shared by the tag and note pages: a title and description,
    repeated in an Open Graph block with one 1200x630 image and in a Twitter card. */
module SiteMetadata {
  /** The endpoint that renders Open Graph images; the title goes in its query. */
  const OgEndpoint := "https://你的網域/api/og?title="
  const OgWidth := 1200
  const OgHeight := 630
  const TwitterCard := "summary_large_image"

  datatype OgImage = OgImage(url: string, width: int, height: int, alt: string)
  datatype OpenGraph = OpenGraph(title: string, description: string, images: seq<OgImage>)
  datatype Twitter = Twitter(card: string, title: string, description: string, images: seq<string>)
  datatype PageMetadata = PageMetadata(title: string, description: string, openGraph: OpenGraph, twitter: Twitter)

  /** The record both builders share: the same title and description in all three places,
      one Open Graph image of the fixed size, and a large-image Twitter card pointing at it. */
  predicate Consistent(m: PageMetadata) {
    && m.openGraph.title == m.title && m.twitter.title == m.title
    && m.openGraph.description == m.description && m.twitter.description == m.description
    && |m.openGraph.images| == 1
    && m.openGraph.images[0].width == OgWidth && m.openGraph.images[0].height == OgHeight
    && m.twitter.card == TwitterCard
    && m.twitter.images == [m.openGraph.images[0].url]
  }

  /** The object literal both builders return. */
  function Social(title: string, description: string, alt: string, ogImageUrl: string): (m: PageMetadata)
    ensures Consistent(m)
    ensures m.title == title && m.description == description
    ensures m.openGraph.images[0].url == ogImageUrl && m.openGraph.images[0].alt == alt
  {
    PageMetadata(
      title, description,
      OpenGraph(title, description, [OgImage(ogImageUrl, OgWidth, OgHeight, alt)]),
      Twitter(TwitterCard, title, description, [ogImageUrl]))
  }

  /** A consistent record is determined by its title, description, image alt and image URL. */
  lemma ConsistentDeterminedBy(m: PageMetadata)
    requires Consistent(m)
    ensures m == Social(m.title, m.description, m.openGraph.images[0].alt, m.openGraph.images[0].url)
  {
    assert m.openGraph.images == [m.openGraph.images[0]];
  }
}
