# Static news-digest generator: verified model of its core

The generator reads RSS feeds and publishes a small static site. For each feed it:

- parses the document and keeps the first items that have a title and a link;
- summarises each item's description into its first few sentences;
- writes one HTML page per item under `posts/`, named after a slug of the title;
- merges the new posts' records into `posts/index.json`, newest first, one record per path, at most 200;
- regenerates `sitemap.xml` from the first 500 indexed posts.

This project models those six steps (`parse_rss`, `summarize`, `slugify`, `write_post`, the merge of `rebuild_index`, and `update_sitemap`) and proves what each promises.

Modules:

- `Text`: the character classes and string passes used by the regular expressions and `str` methods: `\s`/`isspace`, `\w`, `lower`, `strip`, whitespace-run replacement, `find`, `join` and Python slices.
- `Slug`: `slugify`.
- `Summarizer`: `summarize`. The description is an `Option<string>` because the caller may pass `None`.
- `FeedParser`: `parse_rss`.
  - It works on the element tree that the XML library builds. `None` stands for bytes the library rejects.
  - `FindChannel` and `SelectItems` are the two loops of `parse_rss`.
  - Each loop is proved against a specification function (`LocateChannel`, `Select`).
- `PostRenderer`: `write_post`.
  - It returns the file name, the page text and the index record. The date is a parameter.
  - The page is a template of fixed text and holes, filled in order.
- `IndexManager`: the merge of `rebuild_index`.
  - `RebuildIndex` is the dedup loop, proved equal to `Merge`.
  - The stored index is a parameter.
- `Sitemap`: `update_sitemap`. The stored index and the clock reading are parameters. A reader for the produced document is defined so that the round trip can be stated.

## Model

| member | source | states |
|---|---|---|
| Slug.Slugify | generator.py:55-58 | the slug of any title is 1 to 60 characters long, holds only word characters and `-`, and every character is already lower-case |
| Slug.KeepSlugChars | generator.py:56 | the filter keeps only word characters, whitespace and `-`, never lengthens, and leaves a string of those characters unchanged |
| Slug.KeepSlugCharsOne | generator.py:56 | one character is kept exactly when it is a word character, whitespace or `-`, and removed otherwise |
| Slug.KeepSlugCharsAppend | generator.py:56 | the filter works character by character: filtering `a + b` is filtering `a`, then filtering `b` |
| Slug.KeepSlugCharsSafe | generator.py:56 | the filtered title has a word character or `-` exactly when the title has one |
| Slug.SpacesBecomeHyphens | generator.py:57 | once whitespace runs become `-`, only word characters and `-` remain |
| Slug.ReplaceSpaceRunsNoSpace | generator.py:57 | text without whitespace passes the `\s+` replacement unchanged |
| Slug.Hyphenated | generator.py:56-57 | the title after filtering, stripping and hyphenation holds only word characters and `-` |
| Slug.HyphenatedEmptyIff | generator.py:56-57 | filtering and hyphenation leave nothing exactly when the title has no word character and no `-` |
| Slug.SafeIffNotAllSpace | generator.py:56-57 | a filtered title has a word character or `-` exactly when it is not all whitespace |
| Slug.LowerCut | generator.py:58 | cutting to 60 and lower-casing gives at most 60 characters, empty only for empty input, still word characters and `-`, all lower-case |
| Slug.Md5Hex | generator.py:58 | the hex MD5 digest has 32 characters (given for the only input the code hashes, the empty string) |
| Slug.FallbackChars | generator.py:58 | the fallback slug is the first ten hex digits of the MD5 of the empty string, and is a lower-case word |
| Slug.FallbackIsConstant | generator.py:55-58 | every title without a word character or `-` gets one and the same slug, `d41d8cd98f` |
| Slug.SlugOfWordyTitle | generator.py:55-58 | a title with a word character or `-` gets its hyphenated form cut to 60 and lower-cased |
| Slug.SlugHasNoSpace | generator.py:55-58 | no slug holds whitespace |
| Slug.HyphenatedSafe | generator.py:56-57 | a string of word characters and `-` passes filtering and hyphenation unchanged |
| Slug.SlugifyIdempotent | generator.py:55-58 | slugifying a slug gives the same slug |
| Slug.ReplaceSpaceRunsAfterWord | generator.py:57 | a head without whitespace passes the `\s+` replacement untouched, whatever follows it |
| Slug.SlugExample | generator.py:55-58 | `slugify("Hello, World!")` is `hello-world` |
| Text.ToLower | generator.py:58 | each ASCII capital and each Latin-1 capital from `À` to `Þ` (except `×`) becomes the character 32 code points above it, which is not a capital; every other character stays as it is; word characters stay word characters and whitespace stays whitespace |
| Text.ToLowerIdempotent | generator.py:58 | lower-casing twice is lower-casing once |
| Text.Lower | generator.py:58 | `lower()` keeps the length and maps each character |
| Text.WordCharIsNotSpace | generator.py:56 | word characters and `-` are not whitespace |
| Text.Strip | generator.py:30-32 | `strip()` never lengthens and leaves no whitespace at either end |
| Text.TrimLeft | generator.py:45 | `lstrip()` never lengthens, keeps the end of the string, leaves no whitespace at the front, and removes something whenever the string starts with whitespace |
| Text.TrimRight | generator.py:45 | `rstrip()` never lengthens, keeps the start of the string, and leaves no whitespace at the end |
| Text.TrimLeftDrops | generator.py:45 | `lstrip()` removes only whitespace: the part it drops is all whitespace |
| Text.TrimRightDrops | generator.py:45 | `rstrip()` removes only whitespace: the part it drops is all whitespace |
| Text.StripSlice | generator.py:45 | the stripped string is a contiguous piece of the original, and everything before and after that piece is whitespace |
| Text.StripEmpty | generator.py:51 | a string strips to nothing exactly when it is all whitespace |
| Text.StripEdges | generator.py:45 | a string without whitespace at its ends strips to itself |
| Text.StripNormalized | generator.py:45 | stripping keeps a string free of whitespace other than single spaces |
| Text.TrimLeftEmpty | generator.py:45 | the left strip is empty exactly when the string is all whitespace |
| Text.TrimRightEmpty | generator.py:45 | the right strip is empty exactly when the string is all whitespace |
| Text.ReplaceSpaceRunsSpaces | generator.py:45 | after replacing whitespace runs, the only whitespace is the replacement, never twice in a row |
| Text.ReplaceSpaceRunsNormalized | generator.py:45 | replacing runs with a space leaves already-normalised text unchanged |
| Text.ReplaceSpaceRunsAllSpace | generator.py:45 | an all-whitespace string becomes one replacement character, or stays empty |
| Text.ReplaceSpaceRuns | generator.py:45 | the replacement is empty exactly when the input is; it starts with the input's first character, or with the replacement when the input starts with whitespace |
| Text.TrimLeftRun | generator.py:45 | `lstrip()` removes a whole whitespace run and nothing after it |
| Text.ReplaceSpaceRunsRun | generator.py:45 | a run of one or more whitespace characters becomes exactly one replacement and the pass carries on after it, so `\n  ` becomes one space in a summary (and `a  b` becomes `a-b` in the slug pass of line 57) |
| Text.Join | generator.py:52 | joining a single part gives that part |
| Text.EndsWith | generator.py:24 | `s.endswith(x)` holds exactly when `s` is some string followed by `x` |
| Text.EndsWithAppend | generator.py:24 | any string followed by `x` ends with `x` |
| Text.PySlicePrefix | generator.py:52 | `s[:n]` has the length Python gives it, for negative `n` too, and is a prefix of `s` |
| Text.Prefix | generator.py:52 | `s[:n]` for `n >= 0` is a prefix of `s` of length `min(n, len(s))` |
| Text.JoinNormalized | generator.py:52 | joining trimmed, normalised sentences with spaces gives normalised text starting with the first sentence |
| Summarizer.Summarize | generator.py:42-53 | a summary never exceeds 600 characters; the language defaults to `en` and the count to 3 |
| Summarizer.StripTags | generator.py:44 | tag removal never lengthens the text |
| Summarizer.StripTagsLeavesNoTag | generator.py:44 | no `<…>` with a non-empty body is left after tag removal |
| Summarizer.StripTagsTag | generator.py:44 | a tag at the front becomes exactly one space |
| Summarizer.StripTagsNoOpen | generator.py:44 | text without `<` is left untouched |
| Summarizer.StripTagsNoTag | generator.py:44 | text without a complete tag is left untouched |
| Summarizer.StripTagsIdempotent | generator.py:44 | removing tags twice is removing them once |
| Summarizer.StripTagsMarkupOnly | generator.py:44 | markup and whitespace alone become whitespace only |
| Summarizer.CleanText | generator.py:44-45 | the cleaned text has no whitespace at either end |
| Summarizer.CleanTextNormalized | generator.py:44-45 | the cleaned text's only whitespace is single spaces |
| Summarizer.CleanMarkupOnly | generator.py:44-45 | markup and whitespace alone clean to the empty string |
| Summarizer.SplitFrom | generator.py:47-50 | the split always yields at least one part; `SplitJoin` is its round trip |
| Summarizer.SplitSentences | generator.py:47-50 | the split yields at least one part, and on trimmed, single-spaced text its parts are trimmed and, joined with single spaces, give the text back |
| Summarizer.SplitJoin | generator.py:47-50 | on trimmed, single-spaced text the split only drops single spaces: its parts are trimmed and, joined with spaces, give the text back |
| Summarizer.StrippedNonEmpty | generator.py:51 | stripping and filtering never adds parts, and a first part that strips to something comes first, stripped |
| Summarizer.StrippedNonEmptyParts | generator.py:51 | every part left is non-empty with no whitespace at either end |
| Summarizer.StrippedNonEmptyTrimmed | generator.py:51 | parts that are already non-empty and trimmed all pass unchanged |
| Summarizer.SummaryOf | generator.py:52 | the first sentences joined and cut are at most 600 characters and are the start of all the sentences joined |
| Summarizer.EndsSentenceNotSpace | generator.py:48-50 | sentence terminators are not whitespace |
| Summarizer.SentencesSplit | generator.py:47-51 | the sentences are non-empty, trimmed, and joined by single spaces give back the cleaned text |
| Summarizer.SentencesOfBlank | generator.py:51 | text that cleans to nothing has no sentences |
| Summarizer.SentencesOfText | generator.py:47-51 | for non-blank text the fragment filter drops nothing |
| Summarizer.KeptAll | generator.py:52 | keeping at least as many sentences as there are gives the text itself cut to 600 |
| Summarizer.KeptEmptyIff | generator.py:52 | the kept part is empty exactly when the text is empty, the count is 0, or a negative count removes every sentence |
| Summarizer.SummaryIsPrefix | generator.py:42-53 | a summary is a prefix of the cleaned description |
| Summarizer.SummaryNormalized | generator.py:42-53 | a summary has no leading whitespace and no whitespace but single spaces |
| Summarizer.SummaryOfAllSentences | generator.py:42-53 | with a count at least the number of sentences, the summary is the cleaned text cut to 600 |
| Summarizer.SummaryEmptyIff | generator.py:42-53 | the summary is empty exactly when the description cleans to nothing, the count is 0, or the count is at most minus the number of sentences |
| Summarizer.SummaryOfNone | generator.py:44 | a missing description summarises to the empty string |
| Summarizer.SummaryOfMarkupOnly | generator.py:44-53 | a description of markup and whitespace only summarises to the empty string |
| Summarizer.SentencesRoundTrip | generator.py:45-51 | sentences that each end a sentence and hold no break, joined with single spaces, split back into the same list |
| Summarizer.SummaryOfSentences | generator.py:45-52 | the summary of such a text is its first sentences joined and cut to 600 |
| Summarizer.StripTagsPlain | generator.py:44 | text without `<` passes tag removal unchanged, whatever follows it |
| Summarizer.StripTagsClose | generator.py:44 | a closing tag becomes exactly one space |
| Summarizer.StripParagraph | generator.py:44 | `<tag>body</tag>` with no `<` in the body becomes the body between two spaces |
| Summarizer.PaddedClean | generator.py:45 | a trimmed, single-spaced text padded with one space on each side cleans back to itself |
| Summarizer.SummaryOfParagraph | generator.py:42-53 | a description that is one `<tag>…</tag>` paragraph of separable sentences summarises to its first sentences joined by spaces and cut to 600 |
| Summarizer.WordIsSentence | generator.py:47-51 | a word without whitespace or `<` is a sentence of its own |
| Summarizer.TwoWordSentence | generator.py:47-51 | two words joined by a space, the first without a terminator, are one sentence: the space does not split them |
| Summarizer.SummaryExample | generator.py:42-53 | `<p>First sentence. Second sentence. Third. Fourth.</p>` in English with 3 sentences summarises to `First sentence. Second sentence. Third.` |
| Summarizer.TwoSentences | generator.py:48-50 | two sentences joined by a space, the first ending in a terminator, split into the two |
| Summarizer.QuestionMarkSplits | generator.py:47-50 | the locale's question mark (`؟` for `ar`, `?` otherwise) ends a sentence |
| Summarizer.OtherQuestionMarkJoins | generator.py:47-50 | the other locale's question mark does not end a sentence |
| Summarizer.TwoSentencesOne | generator.py:47-51 | a single sentence splits into itself |
| FeedParser.ParseRss | generator.py:15-40 | the reader returns no items for a document that does not parse or has no channel, and otherwise the selection from the channel's `item` children; `limit` defaults to 10 |
| FeedParser.FindChannel | generator.py:20-26 | the channel loop finds the direct `channel` child, failing that the first node of the walk whose tag ends with `channel` |
| FeedParser.SelectItems | generator.py:29-37 | the item loop returns the selection from the candidates' outcomes |
| FeedParser.FirstChildTagged | generator.py:20 | `find` returns a direct child with exactly that tag |
| FeedParser.FirstChildTaggedFirst | generator.py:20 | `find` misses exactly when no direct child has the tag, and otherwise returns the earliest |
| FeedParser.FindText | generator.py:30-33 | `findtext(tag) or ""` is the first such child's text, or empty when there is none |
| FeedParser.Preorder | generator.py:23 | `iter()` starts with the element itself |
| FeedParser.ChildrenInPreorder | generator.py:23 | every direct child is visited by `iter()` |
| FeedParser.PreorderAllAppend | generator.py:23 | walking a list of elements walks each one in turn, in document order |
| FeedParser.PreorderClosed | generator.py:23 | every child of a visited node is visited, so `iter()` reaches descendants at any depth |
| FeedParser.PreorderAllClosed | generator.py:23 | the same closure for the walk of a list of elements |
| FeedParser.FirstTagEndingWith | generator.py:23-26 | the scan returns a node of the walk whose tag ends with the suffix, and finds none only when no node's tag does |
| FeedParser.FirstTagEndingWithFirst | generator.py:23-26 | the node found is the earliest match: no node before it has a tag ending with the suffix |
| FeedParser.FirstTagEndingWithSkip | generator.py:23-26 | a node whose tag does not end with the suffix does not stop the scan |
| FeedParser.LocateChannelPrefersChild | generator.py:20-26 | the first direct child tagged `channel` is the channel, ahead of the root and every deeper node |
| FeedParser.LocateChannelNone | generator.py:20-28 | there is no channel exactly when no node of the tree, the root included, has a tag ending with `channel` |
| FeedParser.LocateChannel | generator.py:20-26 | a found channel's tag ends with `channel`; `FindChannel` computes it, and `LocateChannelPrefersChild`/`LocateChannelNone` say which node it is |
| FeedParser.ItemChildren | generator.py:29 | `findall("item")` returns at most as many elements as there are children, and on one child returns it exactly when it is tagged `item` |
| FeedParser.ItemChildrenTagged | generator.py:29 | `findall("item")` returns only children tagged exactly `item`, and none when no child is |
| FeedParser.ItemChildrenAppend | generator.py:29 | `findall` keeps document order: the items of `a + b` are the items of `a`, then those of `b` |
| FeedParser.ItemChildrenComplete | generator.py:29 | every direct child tagged exactly `item` is returned |
| FeedParser.Qualifies | generator.py:30-34 | an item qualifies only when it has both a `title` and a `link` child |
| FeedParser.StripEdged | generator.py:30-31 | a non-empty stripped value is non-empty with no whitespace at either end |
| FeedParser.ToItem | generator.py:30-35 | the record of a qualifying item has a non-empty, stripped title and link; its `pubDate` is the raw, unstripped text |
| FeedParser.Outcome | generator.py:34-35 | an item yields a record exactly when its stripped title and link are both non-empty |
| FeedParser.Kept | generator.py:34-35 | the records kept are no more than the candidates |
| FeedParser.Select | generator.py:29-37 | the result is the first part of the qualifying items, in document order |
| FeedParser.SelectLength | generator.py:36-37 | with a positive limit, the result holds exactly `min(limit, qualifying items)` records |
| FeedParser.SelectNonPositive | generator.py:36-37 | with a limit of 0 or less, only the first candidate is looked at, so the result holds at most one record |
| FeedParser.SelectSkips | generator.py:34-36 | an item without a title or a link is skipped and does not count toward the limit |
| FeedParser.KeptWellFormed | generator.py:34-35 | every kept record has a non-empty, stripped title and link |
| FeedParser.ParsedItemsWellFormed | generator.py:15-40 | every item the reader returns has a non-empty, stripped title and link |
| FeedParser.ParsedItems | generator.py:15-40 | no items for a document that does not parse or has no channel; otherwise the first of the channel's qualifying items, in order, and no more than a positive `limit` |
| FeedParser.NamespacedItemsIgnored | generator.py:29 | a channel whose items are all namespaced yields no items |
| PostRenderer.WritePost | generator.py:60-89 | the record's path is `posts/` and the page's file name; the record is the title's record; the page is the template filled with this post's values and its language's copy; the language defaults to `en` |
| PostRenderer.Record | generator.py:89 | the record keeps the title and date; its summary is the summary's first 180 characters (all of it when shorter); its `lang` is `AR` exactly for `ar`, otherwise `EN` |
| PostRenderer.CopyFor | generator.py:66-82 | only the exact code `ar` selects the Arabic, right-to-left strings; every other code selects English |
| PostRenderer.LangTag | generator.py:89 | the record's tag is `AR` exactly for `ar`, otherwise `EN` |
| PostRenderer.PostPath | generator.py:61-63 | the record's path is `posts/`, then the title's slug, then `.html` |
| PostRenderer.SamePathIffSameSlug | generator.py:61-63 | two posts get the same path exactly when their titles have the same slug, whatever the other arguments |
| PostRenderer.FallbackTitlesShareAPage | generator.py:58-63 | every title without a word character or `-` is written to `posts/d41d8cd98f.html` |
| PostRenderer.AffixInjective | generator.py:62-63 | a path fixes the slug between `posts/` and `.html` |
| PostRenderer.PageDirection | generator.py:65-66 | a page opens as `<html lang="ar" dir="rtl">` exactly when the language is `ar`, and as `<html lang="en" dir="ltr">` otherwise |
| PostRenderer.OpeningDirection | generator.py:65-66 | whatever follows it, the opening element decides which of the two openings a page has |
| PostRenderer.HtmlOpen | generator.py:65-66 | the opening element starts with `<html lang="` and the language, and ends with the direction and `">` |
| PostRenderer.Render | generator.py:65-86 | a single fixed segment renders as its text, a single hole as its value |
| PostRenderer.RenderAppend | generator.py:65-86 | the template is filled piece by piece, in order |
| PostRenderer.Page | generator.py:65-86 | the page starts with the doctype and the language's opening `<html>` element |
| PostRenderer.PageShows | generator.py:65-86 | the title, summary, source URL, date and the language's labels each appear in the page exactly as given |
| PostRenderer.TemplateHasEveryField | generator.py:65-86 | every value the page shows has a hole in the template |
| PostRenderer.FileName | generator.py:61-62 | the file name is the title's slug followed by `.html`, and is longer than `.html` |
| PostRenderer.SlugHasNoSlash | generator.py:61-62 | a slug holds no `/`, so the page stays inside `posts/` |
| IndexManager.RebuildIndex | generator.py:99-107 | the dedup loop over new records then stored records, cut to 200, computes `Merge` |
| IndexManager.DedupStep | generator.py:102-105 | a record is appended and its path marked seen exactly when the path has not been seen |
| IndexManager.Merge | generator.py:99-107 | the merged index holds at most 200 records |
| IndexManager.MergeShape | generator.py:99-107 | the merged index holds at most 200 records, no path twice, and only input records, in input order |
| IndexManager.DedupFromPaths | generator.py:101-105 | the dedup keeps no path twice and keeps exactly the paths not seen before |
| IndexManager.DedupFrom | generator.py:101-105 | the dedup never adds records |
| IndexManager.Dedup | generator.py:101-105 | the dedup never adds records, is empty only for empty input, and always keeps the first record |
| IndexManager.DedupFromFirst | generator.py:101-105 | every kept record is the first one in the input with its path |
| IndexManager.DedupFromSubsequence | generator.py:101-105 | the dedup only drops records and keeps their order |
| IndexManager.DedupFromAppend | generator.py:101-105 | deduplicating `a + b` keeps `a`'s part, then the part of `b` whose paths `a` did not have |
| IndexManager.DedupFromCovered | generator.py:103 | records whose paths have all been seen are all dropped |
| IndexManager.DedupFromFresh | generator.py:103-105 | records with distinct, unseen paths are all kept |
| IndexManager.MergeStartsWithNew | generator.py:99-107 | the merged index starts with the deduplicated new records, ahead of every stored one |
| IndexManager.NewRecordsWin | generator.py:99-105 | when a new record and a stored one share a path, the index holds the first new record with that path |
| IndexManager.MergeIdempotent | generator.py:99-107 | merging the same new records into the result a second time changes nothing |
| IndexManager.UniquePathsDistinct | generator.py:101-105 | in the index, two different positions hold different paths |
| IndexManager.MergeExample | generator.py:99-107 | stored `[A, B]` and new `[B', C]`, where `B'` has `B`'s path, merge to `[B', C, A]` |
| Sitemap.SitemapUrls | generator.py:117-119 | the URL loop produces the line of each entry: the root, then the first 500 posts |
| Sitemap.UpdateSitemap | generator.py:109-121 | the sitemap is the XML header, the entries' lines joined by newlines, and the closing tag |
| Sitemap.EntriesShape | generator.py:116-119 | the root comes first as `daily`; each of the first 500 posts follows in index order as `weekly` at the site address plus its path; all share one time stamp |
| Sitemap.Entries | generator.py:116-119 | one entry for the root, first and `daily`, plus one per listed post, at most 500 |
| Sitemap.UrlLine | generator.py:117-119 | a `<url>` line starts with `<loc>` and the location, then `<lastmod>`, and ends with `<changefreq>`, the frequency and `</url>` |
| Sitemap.Document | generator.py:120 | the document starts with the XML header and ends with the closing tag, with the joined lines between them |
| Sitemap.ParseUrlLineRoundTrip | generator.py:117-119 | a `<url>` line reads back as the entry it was made from |
| Sitemap.UrlLineOneLine | generator.py:117-119 | a `<url>` line holds no newline when its values hold none |
| Sitemap.SplitOnJoin | generator.py:120 | splitting at newlines undoes the join of the lines |
| Sitemap.ParseLinesRoundTrip | generator.py:117-120 | the lines read back as the entries they were made from |
| Sitemap.DocumentRoundTrip | generator.py:120 | a sitemap document reads back as the entries it was written from |
| Sitemap.SitemapReadsBack | generator.py:109-121 | with a site address, post paths and time stamp free of `<` and newlines, the sitemap reads back as the root entry followed by the first 500 posts' entries |

## Left out

- `fetch` (generator.py:10-13): network I/O. A feed is given as the element tree the XML library would build.
- XML tokenising (`ET.fromstring`): this is the library's work. `None` stands for any document it rejects.
  - Every other exception inside `parse_rss` cannot arise from the modelled operations.
  - The error message printed at line 39 is left out.
- Reading and writing files and JSON (`posts/*.html`, `posts/index.json`, `sitemap.xml`). The caller passes the stored index (`[]` when the file is missing or unreadable) and receives the text to write.
  - Index records with a missing `path` key are not modelled; the code would raise `KeyError`.
- `hashlib.md5`: a hash library. The code only ever hashes `s` after it has been emptied, so the model gives the digest of the empty string as a constant.
- The clock: `date` and `lastmod` are parameters, and their formats are not checked.
- `main` (generator.py:124-144): the per-feed loop, configuration loading and console output are orchestration around the modelled steps.
- `assets/app.js`: browser-side rendering of the index, not part of the generator.
- The `re` engine and Python's Unicode tables:
  - whitespace is the exact set Python's `str.isspace()` accepts;
  - word characters (`\w`) are exactly: ASCII letters and digits, `_`, U+00C0 to U+00FF except U+00D7 and U+00F7, U+0620 to U+064A, and U+0660 to U+0669; everything else is treated as removable;
  - `str.lower()` is modelled for ASCII and Latin-1 capitals only.
- Text.ToLower: lower-cases only ASCII and Latin-1 capitals, because the full Unicode case table (including characters that lower to two code points) is out of scope.
- Text.IsWordChar: keeps only the ranges above, because Unicode character categories are out of scope. Python's `\w` also matches `ª`, `µ`, `º`, `²`, `³`, `¹`, `¼`, `½` and `¾`, the Arabic-script letters outside U+0620 to U+064A (such as `ٱ`, `پ`, `چ`, `گ` and `ی`), the digits U+06F0 to U+06F9, and the letters and digits of every other script. So the model slugs a title made only of such characters (`ª`, say) to the fallback `d41d8cd98f`, where the code keeps them.
- The pages and the sitemap insert titles, summaries, URLs and paths without escaping; the model does the same.
- PostRenderer.PageDirection: states the direction of the page's opening `<html>` element, not the absence of `dir="rtl"` elsewhere, because an unescaped title or summary may contain that text.
- Sitemap.SitemapReadsBack: holds only for values without `<` or a newline, because unescaped values containing them make the document ambiguous to read back.
- Slug.Md5Hex: given only for the empty string, the only input the code ever hashes.

Places where the code and the generator's design description differ (the model follows the code):

- The design says the fallback slug hashes the original title. The code hashes `s` after it has been emptied, so every such title gets the same slug, `d41d8cd98f` (`Slug.FallbackIsConstant`). All those titles then overwrite `posts/d41d8cd98f.html` (`PostRenderer.FallbackTitlesShareAPage`).
- The design says the reader returns at most `limit` items. The code checks the limit only after the first candidate, so a limit of 0 or less can still return one item (`FeedParser.SelectNonPositive`).
- The design says `pubDate` is trimmed like the other fields. The code does not strip it (`FeedParser.ToItem`).
