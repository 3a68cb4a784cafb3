# Portfolio and notes site: a verified model of its logic

This project models the logic of a personal portfolio and notes website built with Next.js
and React, in Dafny. It proves properties of that model. What it covers:

- **Note index.** `getAllNotes` lists the note directories, loads each one's metadata, normalises
  it and skips directories whose load throws.
- **Tag lookup.** `getNotesByTag` percent-decodes the route parameter and keeps the notes that
  carry the tag.
- **Tag routes.** `app/tags/page.tsx` has `generateStaticParams`, `generateMetadata` and `TagPage`.
- **Page metadata.** `getTagMetadata` and `getNoteMetadata` build the title, description, Open
  Graph and Twitter record.
- **Sitemap.** The generator builds the URL list and the Sitemaps 0.9 XML document.
- **Paged note search.** `components/SearchNotes/index.tsx` filters the notes, slices them into
  pages of five and keeps the query and current page as state.
- **Pager.** The pager buttons and label.
- **Single-file search.** `components/SearchNotes.tsx` is the older search without pages. It has a
  clear button and highlights matches.
- **Keyword highlighter.** `highlightText` splits text around case-insensitive matches and marks
  the matching pieces.
- **Project showcase.** The tech-stack tags, the tag toggle, the OR-filter, and the modal's cyclic
  next/previous navigation.

Each source file has its own module. Four shared modules model the JavaScript built-ins:

- `Seqs`: `filter`, `flatMap`, and `Array.from(new Set(...))`.
- `Text`: ASCII `toLowerCase`, `includes`, decimal digits.
- `Uri`: `encodeURIComponent` and `decodeURIComponent` over UTF-8, as in section 2.1 of RFC 3986.
- `JsValues`: truthiness and `String(...)`.

State the source keeps in React hooks becomes a class:

- `SearchNotesState`;
- `LegacySearchState`;
- `ProjectsPageState`.

Its handlers become methods, proved against the pure functions that compute what each render shows.
The directory loop of `getAllNotes` is a method with a loop invariant, proved against `NotesFrom`.

Where the repository's tests and the code disagree, the model follows the code:

- `getAllNotes` does not sort and sets no date.
- A failing `readdir` reaches the caller.

The code does not reset the page when the query changes; see Findings.

## Model

| member | source | states |
|---|---|---|
| AllNotes.TagsOrNone | utils/getAllNotes.ts:29 | an array of tags is kept as it is; anything else becomes the empty list; AllNotes.EntriesAreNormalised shows every index entry carries these tags |
| JsValues.StringOrEmpty | utils/getAllNotes.ts:27-28 | `String(v \|\| '')` is empty for every falsy value and is the string itself for a string; an empty result comes only from a falsy value or an array that joins to the empty string |
| AllNotes.Entry | utils/getAllNotes.ts:23-30 | the pushed entry has the directory as slug, the coerced title and description, and the array tags or none; a missing `metadata` counts as `{}`; AllNotes.EntriesAreNormalised shows every index entry is this normalisation of a loaded module |
| AllNotes.EntryWithoutMetadata | utils/getAllNotes.ts:23-30 | a module without metadata gives an entry with empty title, description and tags |
| AllNotes.GetAllNotes | utils/getAllNotes.ts:12-37 | a failed listing is returned as the failure; otherwise the loop over the directories yields exactly `NotesFrom(dirs)`, so a throwing directory is skipped and does not stop the loop |
| AllNotes.NotesFrom | utils/getAllNotes.ts:18-34 | the entries the loop accumulates, at most one per directory; AllNotes.SlugsAreLoadedDirs and AllNotes.EntriesAreNormalised state which ones |
| AllNotes.NotesFromSnoc | utils/getAllNotes.ts:18-34 | one more directory adds its entry at the end when its module loads, and nothing otherwise |
| AllNotes.NotesFromAppend | utils/getAllNotes.ts:18-34 | the index of a concatenated listing is the concatenation of the two indexes |
| AllNotes.SlugsAreLoadedDirs | utils/getAllNotes.ts:18-36 | the slugs of the index are exactly the directories whose module loads, in listing order |
| AllNotes.EntriesAreNormalised | utils/getAllNotes.ts:18-36 | every entry belongs to a listed directory that loads and is that module's normalised metadata |
| NotesByTag.TaggedWith | utils/getNotesByTag.ts:7 | the kept notes are a subsequence of the input; a note is kept if and only if it has a tags array holding the tag, and every occurrence of a kept note is kept |
| NotesByTag.NotesByTag | utils/getNotesByTag.ts:3-8 | the call fails exactly when the parameter is not valid percent-encoding; otherwise the result is the notes tagged with the decoded parameter |
| NotesByTag.NotesByEncodedTag | utils/getNotesByTag.ts:5-7 | a tag passed through `encodeURIComponent` selects exactly the notes that carry it |
| NotesByTag.NotesByPlainTag | utils/getNotesByTag.ts:5-7 | a parameter without `%` is compared unchanged |
| NotesByTag.DecodeSpace | utils/getNotesByTag.ts:5 | `%20` after a piece without `%` decodes to a space and the decoding continues |
| NotesByTag.DecodeSpacedTag | __tests__/getNotesByTag.test.ts:75 | `tag%20with%20space` decodes to `tag with space` |
| NotesByTag.CaseSensitive | __tests__/getNotesByTag.test.ts:84-88 | a note tagged only `TagX` is not found under `tagx` |
| NotesByTag.NoCarrierNoResult | utils/getNotesByTag.ts:7 | when no note carries the tag, the result is empty |
| Uri.Encode | app/tags/page.tsx:15 | `encodeURIComponent` writes only `%` and unescaped characters, never shortens, and leaves a string of unescaped characters as it is; Uri.DecodeEncode shows decoding inverts it |
| Uri.EncodeChar | app/tags/page.tsx:15 | a character is kept exactly when it is in the unescaped set; otherwise it becomes `%HH` triples |
| Uri.Decode | utils/getNotesByTag.ts:5 | `decodeURIComponent` never lengthens its input; Uri.DecodeEncode and Uri.DecodeWithoutPercent state what it returns |
| Uri.DecodeEncode | app/tags/page.tsx:14-20 | `decodeURIComponent(encodeURIComponent(s)) == s` for every string |
| Uri.EncodeInjective | app/tags/page.tsx:14-16 | distinct tags get distinct encoded route parameters |
| Uri.DecodeWithoutPercent | utils/getNotesByTag.ts:5 | decoding leaves a string without `%` unchanged |
| Uri.Utf8RoundTrip | app/tags/page.tsx:15-20 | the UTF-8 encoding of a character has the length its lead byte announces and decodes back to the character |
| Uri.DecodeUnitOfEncoded | app/tags/page.tsx:15-20 | decoding the escape of one character, followed by anything, reads back that character and consumes exactly its escape |
| Uri.PercentRunOf | app/tags/page.tsx:15-20 | a run of `%XX` triples written for some bytes reads back as those bytes |
| Uri.HexDigitValue | app/tags/page.tsx:15-20 | each hex digit written by the encoder reads back as its value |
| TagsPage.AllTags | app/tags/page.tsx:11 | `flatMap(note => note.tags ?? [])` holds exactly the tags that some note carries |
| TagsPage.AllTagsAppend | app/tags/page.tsx:11 | the tags of two note lists are those of the first followed by those of the second |
| TagsPage.AllTagsSingle | app/tags/page.tsx:11 | one note contributes its own tags, in order |
| TagsPage.UniqueTags | app/tags/page.tsx:12 | the distinct tags hold no duplicates and exactly the tags of `allTags`; Seqs.DedupFirstOccurrenceOrder gives their order |
| TagsPage.StaticParams | app/tags/page.tsx:8-17 | there is one parameter per distinct tag, without duplicates; the i-th parameter is `encodeURIComponent` of the i-th distinct tag, so it uses only the URI-safe alphabet of Uri.Encode, and it decodes back to that tag (Uri.DecodeEncode) |
| TagsPage.StaticParamsCoverTags | app/tags/page.tsx:8-17 | every tag some note carries has a static parameter that decodes to it |
| TagsPage.Metadata | app/tags/page.tsx:19-25 | it fails exactly on a malformed parameter; otherwise title and description are built from the decoded tag; TagsPage.MetadataOfStaticParam shows each generated parameter's page is titled after its own tag |
| TagsPage.TitleForInjective | app/tags/page.tsx:22 | two tags with the same page title are the same tag |
| TagsPage.MetadataOfStaticParam | app/tags/page.tsx:8-25 | each pre-generated parameter's page is titled after the tag it came from |
| TagsPage.TagPage | app/tags/page.tsx:27-58 | a malformed parameter fails; a tag no note carries is not found; otherwise the page shows the decoded tag, the count, and the tagged notes in order |
| TagsPage.StaticParamsHavePages | app/tags/page.tsx:8-37 | every pre-generated tag page exists and lists at least one note |
| TagMetadata.GetTagMetadata | lib/getTagMetadata.ts:1-28 | it fails exactly on a malformed tag; otherwise it returns the consistent record for `#tag - site` with the tag as image alt and the encoded `#tag` in the image URL |
| TagMetadata.OgQueryRoundTrip | lib/getTagMetadata.ts:4 | the image URL is the endpoint followed by a query that decodes back to `#` and the tag |
| TagMetadata.MetadataOfEncodedTag | lib/getTagMetadata.ts:1-28 | a page reached through an encoded tag is described in terms of that tag |
| TagMetadata.TagTitleInjective | lib/getTagMetadata.ts:7 | distinct tags get distinct titles |
| SiteMetadata.Social | lib/generateMetadata.ts:21-42 | the record repeats the title and description in the Open Graph and Twitter parts, uses one 1200x630 image, and gives Twitter the same image URL |
| SiteMetadata.ConsistentDeterminedBy | lib/getTagMetadata.ts:6-27 | a consistent record is determined by its title, description, image alt and image URL |
| NoteMetadata.OrDefault | lib/generateMetadata.ts:17-18 | `??` falls back only for a missing or null field; a string, even the empty one, is kept; NoteMetadata.EmptyTitleKept shows the empty title survives into the record |
| NoteMetadata.MetadataOf | lib/generateMetadata.ts:17-42 | the record is consistent, its title and description are the frontmatter values or the defaults, the image alt is the title and the image URL ends in the encoded title |
| NoteMetadata.GetNoteMetadata | lib/generateMetadata.ts:5-43 | a failed read or compile is returned as the failure; otherwise the record is built from the frontmatter |
| NoteMetadata.EmptyTitleKept | lib/generateMetadata.ts:17-19 | an empty frontmatter title stays empty and leaves the image query empty |
| NoteMetadata.OgQueryIsTitle | lib/generateMetadata.ts:19 | the image URL's query decodes back to the page title |
| Sitemap.NoteUrls | scripts/generate-sitemap.ts:13-27 | every note URL comes from a listed folder, meaning one whose frontmatter has a truthy title, and every listed folder gets a URL |
| Sitemap.NoteUrlsAreListedFolders | scripts/generate-sitemap.ts:13-27 | the note URLs are `/notes/<folder>` for the listed folders, in folder order |
| Sitemap.Urls | scripts/generate-sitemap.ts:27 | the list is the two static paths followed by the note URLs; Sitemap.GeneratedSitemapRoundTrip shows the document carries exactly this list |
| Sitemap.Entries | scripts/generate-sitemap.ts:31-38 | the body is one `<url><loc>` block per URL, each under the domain, in order |
| Sitemap.DoubleSlashInNoteLoc | scripts/generate-sitemap.ts:5-35 | because the domain ends in `/`, every note `<loc>` has `//notes/` right after the host |
| Sitemap.SitemapXml | scripts/generate-sitemap.ts:29-39 | the document is the XML declaration with the `urlset` opening, one block per URL, then `</urlset>`; Sitemap.SitemapRoundTrip reads it back |
| Sitemap.SitemapRoundTrip | scripts/generate-sitemap.ts:29-39 | a document built from URLs without `<` parses back to exactly those URLs |
| Sitemap.GeneratedSitemapRoundTrip | scripts/generate-sitemap.ts:8-39 | when no folder name contains `<`, the generated document parses back to the generated URL list |
| BlockText.ParseBlocksOf | scripts/generate-sitemap.ts:31-38 | blocks joined without a separator read back as the items they were built from |
| SearchNotes.MatchesQuery | components/SearchNotes/index.tsx:15-21 | the empty query matches every note; SearchNotes.FilterNotes keeps exactly the notes it matches |
| SearchNotes.FilterNotes | components/SearchNotes/index.tsx:15-22 | the kept notes are a subsequence; a note is kept if and only if the lowered query occurs in its lowered title, its description, or one of its tags, and every occurrence of a kept note is kept |
| SearchNotes.EmptyQueryKeepsAll | components/SearchNotes/index.tsx:15-22 | the empty query keeps every note, in order |
| Text.ContainsIff | components/SearchNotes/index.tsx:18-20 | `includes` holds exactly when the needle occurs at some index |
| Text.ContainsEmpty | components/SearchNotes/index.tsx:18-20 | every string includes the empty string |
| SearchNotes.TotalPages | components/SearchNotes/index.tsx:24 | the page count is the least number of five-note pages that holds every note |
| SearchNotes.PageSlice | components/SearchNotes/index.tsx:26-29 | a page has at most five notes; they are the notes from `(page-1)*5` on; a page past the end is empty |
| SearchNotes.PagesThroughIsPrefix | components/SearchNotes/index.tsx:26-29 | pages 1 to k, read in order, are the first `min(5k, n)` notes |
| SearchNotes.PagesCoverAll | components/SearchNotes/index.tsx:24-29 | pages 1 to `totalPages`, read in order, show every filtered note exactly once, in order |
| SearchNotes.InRangePageNotEmpty | components/SearchNotes/index.tsx:24-29 | when some note matches, a page in range shows at least one note |
| SearchNotes.Render | components/SearchNotes/index.tsx:41-67 | the count is that of the filtered notes; the no-match message shows exactly when none match; at most five are listed; the listed notes are the current page's slice of the filtered notes; the pager shows exactly when more than five match, and it then gets the current page and the page count, which is at least two |
| SearchNotes.StalePageShowsNothing | components/SearchNotes/index.tsx:24-63 | on page 2 or later, a query matching one to five notes renders an empty list without a pager |
| SearchNotes.SearchNotesState.constructor | components/SearchNotes/index.tsx:10-11 | the search starts with the empty query on page 1 |
| SearchNotes.SearchNotesState.HandlePrev | components/SearchNotes/index.tsx:31-33 | it moves back one page unless on page 1, and keeps the page in range |
| SearchNotes.SearchNotesState.HandleNext | components/SearchNotes/index.tsx:35-39 | it moves forward one page unless on or past the last page, and keeps the page in range |
| SearchNotes.SearchNotesState.SetSearch | components/SearchNotes/index.tsx:46 | the query changes and the current page does not |
| SearchNotes.SearchNotesState.ChangeQuery | components/SearchNotes/index.tsx:10-11 | a query change that returns to page 1 keeps the page in range, and the visible page is non-empty whenever some note matches |
| SearchNotes.SixNotesMatchingX | components/SearchNotes/index.tsx:15-22 | of the six sample notes, exactly the first five match `x` |
| SearchNotes.StalePageScenario | components/SearchNotes/index.tsx:10-63 | six notes, next to page 2, then the query `x`: the count says 5 but the list is empty and the pager is gone |
| Pagination.PrevDisabled | components/SearchNotes/Pagination.tsx:18 | the previous button is disabled exactly on page 1; Pagination.NoHandlerAtTheEnds shows `onPrev` then never runs |
| Pagination.NextDisabled | components/SearchNotes/Pagination.tsx:30 | the next button is disabled exactly on the last page; Pagination.NoHandlerAtTheEnds shows `onNext` then never runs |
| Pagination.NoHandlerAtTheEnds | components/SearchNotes/Pagination.tsx:16-36 | `onPrev` never runs on page 1 and `onNext` never runs on the last page |
| Pagination.AtMostOneDisabled | components/SearchNotes/Pagination.tsx:18-30 | with two pages or more, at least one button is enabled |
| Pagination.ParseLayoutOfLayout | components/SearchNotes/Pagination.tsx:26 | two numbers written between separators that do not start with a digit can be read back |
| Pagination.Label | components/SearchNotes/Pagination.tsx:25-27 | the label `第 c 頁 / 共 t 頁` determines both the current page and the page count: both read back out of it |
| Text.DigitsValueOfNatToString | components/SearchNotes/Pagination.tsx:26 | the decimal form of a number reads back as that number |
| Text.NatToStringInjective | components/SearchNotes/Pagination.tsx:26 | distinct numbers print differently |
| LegacySearchNotes.TagLinks | components/SearchNotes.tsx:96-106 | one `#tag` link per tag, each highlighted; none when the tags are missing or empty; LegacySearchNotes.EmptyQueryListsAll covers the empty query |
| LegacySearchNotes.RenderItem | components/SearchNotes.tsx:86-109 | an item links to the note's slug and has one tag link per tag; with the empty query its title and description are unsegmented |
| LegacySearchNotes.Render | components/SearchNotes.tsx:47-113 | the header counts every note; the clear button shows exactly for a non-empty query; the no-match message shows exactly when no note matches; otherwise each matching note is listed, in order; LegacySearchNotes.HeaderIgnoresQuery and LegacySearchNotes.EmptyQueryListsAll build on it |
| LegacySearchNotes.HeaderIgnoresQuery | components/SearchNotes.tsx:50 | the header count is the same for every query |
| LegacySearchNotes.EmptyQueryListsAll | components/SearchNotes.tsx:19-38 | with the empty query every note is listed and no title is segmented |
| LegacySearchNotes.LegacySearchState.constructor | components/SearchNotes.tsx:15 | the search starts empty |
| LegacySearchNotes.LegacySearchState.SetSearch | components/SearchNotes.tsx:58 | the input replaces the query |
| LegacySearchNotes.LegacySearchState.HandleClear | components/SearchNotes.tsx:40-45 | clearing empties the query, hides the clear button and lists every note |
| Highlight.Split | utils/highlightText.tsx:6 | a split with a capture group yields at least one piece |
| Highlight.JoinSplit | utils/highlightText.tsx:6 | the pieces, concatenated, are the text |
| Highlight.SplitParts | utils/highlightText.tsx:6 | the piece count is odd; every odd-indexed piece matches the keyword ignoring case; no even-indexed piece contains a match |
| Highlight.SplitAtFirstMatch | utils/highlightText.tsx:6 | with the first match at n, the split is the text before n, the matched text, then the split of the rest |
| Highlight.SplitWithoutMatch | utils/highlightText.tsx:6 | the split is the text alone if and only if the text contains no match |
| Text.EqualIgnoringCaseIff | utils/highlightText.tsx:6-9 | the case-insensitive character match holds exactly when the lowered strings are equal |
| Highlight.MarkPiece | utils/highlightText.tsx:8-15 | a piece keeps its text and is marked exactly when it equals the keyword ignoring case |
| Highlight.MarkAll | utils/highlightText.tsx:8-16 | one part per piece, each marked exactly when it lowers to the lowered keyword; Highlight.MarkSplit shows the marked parts are exactly the odd-indexed pieces of the split |
| Highlight.MarkSplit | utils/highlightText.tsx:6-16 | the parts join back to the text, exactly the odd-indexed parts are marked, and each marked part is a case-insensitive copy of the keyword |
| Highlight.Highlight | utils/highlightText.tsx:3-17 | an empty keyword returns the text unsegmented; a keyword with regex syntax fails; otherwise the result is well-marked parts of the text, marked over the split of Highlight.Split, which cuts at the leftmost match first (Highlight.SplitAtFirstMatch) |
| Highlight.HighlightWithoutMatch | utils/highlightText.tsx:4-16 | a text without a match becomes one unmarked part |
| Highlight.PlusIsRejected | utils/highlightText.tsx:6 | the keyword `+` is an invalid pattern |
| Highlight.SplitFooBarFoo | __tests__/highlightText.test.ts:55-76 | `foo bar foo` split on `foo` gives `"", foo, " bar ", foo, ""` |
| Highlight.FooBarFoo | __tests__/highlightText.test.ts:55-76 | `foo bar foo` highlights both occurrences of `foo` and leaves ` bar ` plain between them |
| ProjectsPage.AllTags | app/projects/page.tsx:12 | each tech some project lists appears once, and only those techs |
| Seqs.DedupFirstOccurrenceOrder | app/projects/page.tsx:12 | `Array.from(new Set(xs))` keeps elements in the order of their first occurrence |
| Seqs.DedupOfNoDup | app/tags/page.tsx:12 | deduplicating a list without duplicates returns it unchanged |
| Seqs.FilterIsSubsequence | app/projects/page.tsx:24-27 | `filter` keeps a subsequence of its input |
| Seqs.FilterCount | app/projects/page.tsx:24-27 | `filter` keeps every occurrence of an element the predicate accepts and no occurrence of any other |
| ProjectsPage.Toggle | app/projects/page.tsx:18-22 | the tag's membership flips and no other tag's does; an absent tag is appended at the end; removing a tag shortens the list; no duplicates are introduced |
| ProjectsPage.FilterDropsOne | app/projects/page.tsx:20 | filtering out a present tag shortens the list and keeps it free of duplicates |
| ProjectsPage.ToggleTwiceAbsent | app/projects/page.tsx:18-22 | toggling an unselected tag twice restores the very same list |
| ProjectsPage.ToggleTwicePresent | app/projects/page.tsx:18-22 | toggling a selected tag twice restores the same set of tags |
| ProjectsPage.FilterProjects | app/projects/page.tsx:24-27 | the shown projects are a subsequence; a project is shown if and only if no tag is selected or it uses a selected tech, and every occurrence of a shown project is shown |
| ProjectsPage.NoSelectionShowsAll | app/projects/page.tsx:24-27 | with no tag selected every project is shown, in order |
| ProjectsPage.FindIndexByTitle | app/projects/page.tsx:31 | it returns -1 exactly when no project has the title; otherwise the first index with that title |
| ProjectsPage.TruncRem | app/projects/page.tsx:38 | JavaScript `%` agrees with the mathematical remainder on non-negative operands and stays strictly between -n and n |
| ProjectsPage.NextProject | app/projects/page.tsx:29-33 | there is a next project exactly when one is selected and the list is non-empty, and it is one of the shown projects |
| ProjectsPage.PrevProject | app/projects/page.tsx:35-39 | there is a previous project exactly when one is selected and the list is non-empty, and it is one of the shown projects |
| ProjectsPage.NextOfIndexed | app/projects/page.tsx:29-33 | with unique titles, next from index i is the project at `(i + 1) % n` |
| ProjectsPage.PrevOfIndexed | app/projects/page.tsx:35-39 | with unique titles, previous from index i is the project at `(i - 1 + n) % n` |
| ProjectsPage.NavigateFromAbsent | app/projects/page.tsx:29-39 | from a project not in the list, next is the first project and previous is the second to last, or the only one |
| ProjectsPage.PrevAfterNext | app/projects/page.tsx:29-39 | with unique titles, previous undoes next |
| ProjectsPage.NextAfterPrev | app/projects/page.tsx:29-39 | with unique titles, next undoes previous |
| ProjectsPage.ProjectsPageState.constructor | app/projects/page.tsx:15-16 | no tag selected and no project open |
| ProjectsPage.ProjectsPageState.ToggleTag | app/projects/page.tsx:47-53 | the selection is toggled, the open project is kept, and the selection stays free of duplicates |
| ProjectsPage.ProjectsPageState.Select | app/projects/page.tsx:66-72 | clicking card i opens the i-th shown project |
| ProjectsPage.ProjectsPageState.Close | app/projects/page.tsx:81 | closing leaves no project open and keeps the selection |
| ProjectsPage.ProjectsPageState.ShowNext | app/projects/page.tsx:82 | the open project becomes the next one in the shown list |
| ProjectsPage.ProjectsPageState.ShowPrev | app/projects/page.tsx:83 | the open project becomes the previous one in the shown list |

## Left out

- Rendering, JSX, class names, animations and page transitions are not modelled. Only what each view shows is modelled: its counts, lists, buttons and highlighted parts.
- File-system and module I/O is passed in as parameters. This covers `fs.readdir`, `fs.readFile`, dynamic `import`, `compileMDX`, `gray-matter` and `writeFile`. The warnings printed with `console` are dropped.
- The `setTimeout` that focuses the input after clearing is not modelled, because it only moves focus.
- Highlight.Highlight: the keyword is matched as a literal, ignoring case. A keyword holding any regular-expression metacharacter is reported as a pattern error. JavaScript would compile many such keywords, such as `a.b`, as patterns, so this contract is weaker than the source's.
- Text.Lower: lowering is modelled on ASCII letters only. JavaScript's `toLowerCase` and the `i` flag also fold non-ASCII letters.
- Uri.Encode: characters are Unicode scalar values, not UTF-16 code units. Lone surrogates, for which `encodeURIComponent` throws, are not modelled.
- Frontmatter and metadata values are limited to undefined, null, booleans, integers, strings and string arrays. Floating-point numbers and nested objects are not modelled.
- AllNotes.TagsOrNone: the model keeps only string arrays as tag arrays. A tags array holding non-strings is treated as no array.
- NoteMetadata.OrDefault: a frontmatter field is missing, null or a string. The source's other value types are not modelled.
- Sorting the note index by date is not modelled, because `getAllNotes` does not sort.
- Sitemap.SitemapRoundTrip: the parse back holds only for URLs without `<`. A folder name holding `<` would produce a document the parser reads differently.
- The project data in `data/projects.ts` and the rendering in `ProjectModal`, `ProjectCard`, `TagButton` and `NotesList` are not part of this model.

## Findings

| source | as written | input that shows it | evidently intended | confidence | as-written member | corrected member |
|---|---|---|---|---|---|---|
| components/SearchNotes/index.tsx:46 | the search input calls `setSearch` directly, so a new query keeps the current page | six notes, five of them matching `x`; press next to reach page 2, then type `x`: the header says 5 notes, page 2 is empty and the pager is hidden, so page 1 cannot be reached without changing the query again | a query change resets the page to 1, so a matching query always shows notes | not executed | SearchNotes.SearchNotesState.SetSearch, exhibited by SearchNotes.StalePageScenario | SearchNotes.SearchNotesState.ChangeQuery |
