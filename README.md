# hbar site generator: a Dafny model of its core

hbar is the static-site generator of the /bin/hbar blog. It keeps one
store record per article directory, rebuilding a record only when the
directory checksum changes or a rebuild is forced. It validates each
article's `__article__.py` metadata and derives URL slugs and canonical
paths. From the records it assembles the site: a tag index with
per-tag neighbour navigation, paginated article lists with "more recent"
and "older" footers, a tag list and a recent-posts list. Slashes inside
`href` attributes are then tidied. Three Markdown extensions shape the
article text:

- fenced code blocks become highlighted HTML with a line-number gutter;
- `\[ … \]` spans of blocks become one display-math element;
- the summary of an article demotes its headings and keeps only its
  first few blocks.

This project models those rules in Dafny and proves what their code
promises. One module covers each concern:

| module | file | concern |
|---|---|---|
| `Text` | text.dfy | options and results, Python's whitespace and ASCII character classes, `join`, `str(n)`, `strip` |
| `Patterns` | patterns.dfy | the regex shapes `^\s*M` and `M\s*$` used by the code-fence and math processors |
| `Urls` | urls.dfy | `_canonical_abs`, `_url_tidyup` |
| `Slugs` | slugs.dfy | `_sanitise_tag` |
| `Metadata` | metadata.dfy | literal values, the casts, `_validate_info_file`, `_url_sanitise_title` |
| `Rebuild` | rebuild.dfy | `update_article` (skip decision and record merge), `update_all_articles` |
| `Sorting` | sorting.dfy | Python's stable `sorted`, as an insertion sort over an ordering |
| `Site` | site.dfy | `SiteState` (store-file filter, article links, tag index, `seek_in_tag`, `articles_by_tag`), byline ordinal, tag-list and recent-posts order |
| `Pagination` | pagination.dfy | `_chunk`, the page directories and header links of `_deploy_list`, `_html_list_footer` |
| `Highlight` | highlight.dfy | `_span`, `_format_lines`, `tohtml`, `CodeBlock.run` |
| `KaTeX` | katex.dfy | `KaTeXBlock.test`, `KaTeXBlock.run` |
| `Summarise` | summarise.dfy | `SummariseTreeprocessor._lower_heading_levels`, `_summarise`, `run` |

Each model keeps the form of its source. Where the source loops and
mutates, the model does too:

- `_validate_info_file`, `update_article`, `update_all_articles`,
  `_format_lines`, `CodeBlock.run`, `KaTeXBlock.run`,
  `_lower_heading_levels` and `_summarise` are methods with loops.
  Each is proved equal to a specification function, and the properties
  are proved as lemmas about that function.
- `SiteState` is a class whose constructor builds the tag index by the
  source's nested loops.
- `KaTeXBlock.run` updates a `Blocks` object (the Python list of blocks)
  and a `Parent` object in place.

Foreign code becomes parameters:

- Pygments' lexers and token classes are the `Lexers` value.
- The KaTeX renderer is `render`.
- Timestamp parsing is `normalise` and `yearMonth`.
- What an article directory yields on disk is an `ArticleDir` value.

Where the documentation and the code disagree, the model follows the
code:

- `_lower_heading_levels` loops over levels 5, 4, 3 and 2, so h1 is
  never demoted and nothing becomes h2.
- `_validate_info_file` reports every missing key and bad type together,
  except for a date string that `fromisoformat` rejects. That raises its
  own `ValueError` at once (`Metadata.ValidateDateAbortsExample`).
- `update_all_articles` counts only `ValueError`. Any other exception
  escapes and ends the run. Examples are a store record without a
  checksum (`KeyError`), a store file or an info file holding a number
  instead of a dictionary (`TypeError`), or an unreadable info file.
- `articles_by_tag` is documented as oldest to newest. In fact the tag
  lists follow the order of the global store file, as
  `Site.TagMembersNotByDate` shows.

## Model

| member | source | states |
|---|---|---|
| Patterns.LeadingMeaning | lib/highlight.py:69 | `^\s*M` matches exactly when whitespace and then the marker start the line; the match ends right after the marker, and without a match no whitespace prefix is followed by the marker |
| Patterns.TrailingMeaning | lib/highlight.py:70 | `M\s*$` matches exactly when the marker occurs followed by nothing but whitespace |
| Patterns.BeforeTrailingSplit | lib/katex.py:38 | removing the `M\s*$` match takes off the marker and trailing whitespace and nothing else |
| Urls.CanonicalAbs | lib/hbar.py:44-50 | the result starts with the base (`/`, or `SITE/` when `site` is set); an empty or `.` path gives exactly the base |
| Urls.CanonicalAbsShape | lib/hbar.py:44-50 | with default flags the result is `/` for an empty or `.` path, otherwise `/` + the slash-stripped path + `/`, and that stripped path has no slash at either end |
| Urls.CanonicalAbsIdempotent | lib/hbar.py:44-50 | applying `_canonical_abs` to its own result changes nothing |
| Urls.CanonicalAbsIgnoresEdgeSlashes | lib/hbar.py:47 | a leading or trailing slash on the argument makes no difference, for every flag setting |
| Urls.StripSlashes | lib/hbar.py:47 | `strip("/")` leaves no slash at either end |
| Urls.StripSlashesKeeps | lib/hbar.py:47 | a path without edge slashes is left as it is |
| Urls.CollapseLeavesNoDoubleSlash | lib/hbar.py:81 | after `([^:])/+` → `\1/`, two adjacent slashes (past the first character) always follow a colon, as in `https://` |
| Urls.CollapseRemovesOnlySlashes | lib/hbar.py:81 | collapsing removes slashes only: every other character survives, in order |
| Urls.CollapseKeepsSingleSlashes | lib/hbar.py:81 | text without two adjacent slashes is unchanged |
| Urls.CollapseAppend | lib/hbar.py:81 | no run of slashes reaches across a character that is not a slash: the text before and the text from it on are collapsed independently |
| Urls.RunCollapsesToOne | lib/hbar.py:81 | a run of any length n ≥ 1 of slashes after a character other than `:` becomes exactly one slash |
| Urls.ColonRun | lib/hbar.py:81 | after a colon one slash stays one and a run of two or more becomes exactly two (`:///` gives `://`) |
| Urls.SchemeSlashesKept | lib/hbar.py:81 | in `p://q`, with `q` not starting with a slash, the `://` survives and `p` and `q` are collapsed on their own |
| Urls.ClosingQuote | lib/hbar.py:80 | the lazy `(.*?)\1` ends at a matching quote with neither that quote nor a newline before it; there is no match exactly when every such quote comes after a newline |
| Urls.HrefMatchEnd | lib/hbar.py:80 | an `href\s*=\s*(['"])…\1` match starting at a position ends after it, within the text |
| Urls.TidyCopiesUnmatched | lib/hbar.py:157-158 | text where no `href` attribute starts is copied unchanged up to the next attribute |
| Urls.UrlTidyupWithoutLinks | lib/hbar.py:157-158 | a page without any `href` attribute is unchanged |
| Urls.TidyKeepsSingleSlashes | lib/hbar.py:157-158 | a page that never holds two adjacent slashes is unchanged |
| Slugs.Lower | lib/hbar.py:330 | `lower()` keeps the length and lowercases each ASCII letter in place |
| Slugs.SpacesToHyphens | lib/hbar.py:330 | `replace(" ", "-")` turns exactly the spaces into hyphens |
| Slugs.KeepSlugChars | lib/hbar.py:329-332 | the filter keeps only alphanumerics and `-` |
| Slugs.SanitiseTagPerCharacter | lib/hbar.py:328-332 | the tag slug agrees with an independent per-character definition (space to `-`, letter lowercased, digit and `-` kept, all else dropped) |
| Slugs.SanitiseTagIsSlug | lib/hbar.py:328-332 | a tag slug holds only lowercase letters, digits and `-` |
| Slugs.SanitiseTagIdempotent | lib/hbar.py:328-332 | sanitising a slug again changes nothing |
| Slugs.SanitiseTagOfWords | lib/hbar.py:330 | the slug of two words joined by a space is their slugs joined by `-` |
| Metadata.StrList | lib/hbar.py:165-168 | `cast_list(str)` gives a string's one-character strings, gives `str` of each list item at its own position, and raises `TypeError` exactly on a value that is neither |
| Metadata.NormaliseDate | lib/hbar.py:171-175 | a non-string date is a `TypeError`, a malformed date string a `ValueError`, otherwise the normalised timestamp |
| Metadata.ApplyCast | lib/hbar.py:178-191 | only the date cast can raise `ValueError`; `str` never raises |
| Metadata.CastOf | lib/hbar.py:178-191 | `date` is the only key cast by `_normalise_date` |
| Metadata.MissingInContents | lib/hbar.py:201-205 | the missing list holds every required key absent from the info file, and nothing else |
| Metadata.BadTypeInContents | lib/hbar.py:206-213 | the bad-type list holds every listed key present whose cast raises `TypeError`, and nothing else |
| Metadata.CastIntoContents | lib/hbar.py:201-213 | the output holds exactly the keys whose cast succeeded, each holding its cast value; other entries are untouched |
| Metadata.CastIntoValidated | lib/hbar.py:199-213 | the two loops together store exactly the validated record |
| Metadata.ValidateInfoFile | lib/hbar.py:198-218 | the loops return or raise what the declarative `Validate` says |
| Metadata.CastStep | lib/hbar.py:201-213 | one more key either appends its `TypeError` to the list or adds its cast value to the output |
| Metadata.CastNecessary | lib/hbar.py:201-207 | the required-key loop stops exactly at a malformed date; otherwise it has collected every missing key, every `TypeError` and every cast value |
| Metadata.ValidateSucceeds | lib/hbar.py:214-218 | validation succeeds iff every required key is present, the date parses and no known key's cast raises `TypeError` |
| Metadata.ValidatedKeys | lib/hbar.py:199-218 | a validated record holds the required keys plus exactly the optional keys present, each cast; unknown keys are dropped |
| Metadata.ValidateReportsEveryProblem | lib/hbar.py:200-217 | a failed validation lists every missing required key and every mistyped known key, in both directions: it is not fail-fast |
| Metadata.ValidateCollectsExample | lib/hbar.py:198-217 | an info file with a numeric date, a boolean tag list and no title or id is rejected with all four problems |
| Metadata.ValidateDateAbortsExample | lib/hbar.py:172-203 | a malformed date string aborts validation before the missing title is reported |
| Metadata.UrlSanitiseTitle | lib/hbar.py:247-252 | the title slug is made of slug characters and comes from the short title when there is one, else from the title; a missing or non-string title is an error |
| Rebuild.UpdateArticle | lib/hbar.py:255-289 | the checks of `update_article`, taken in the source's order, give the outcome the specification `ArticleOutcome` gives |
| Rebuild.RebuildRecord | lib/hbar.py:270-289 | parsing, validating, merging and setting the output path give the outcome of `Rebuilt` |
| Rebuild.SetOutputPath | lib/hbar.py:282-286 | the output path step gives the outcome of `WithOutputPath` |
| Rebuild.MergedBySteps | lib/hbar.py:271-281 | the successive dictionary updates build the merged record |
| Rebuild.SkipIffUpToDate | lib/hbar.py:257-267 | an article is skipped iff its directory exists, a stored record holds the current checksum and no rebuild is forced |
| Rebuild.RebuiltNeverSkips | lib/hbar.py:270-289 | once past the skip check, `update_article` writes a record or raises |
| Rebuild.WrittenRecord | lib/hbar.py:270-289 | a written record holds the new checksum, Markdown, summary and input path, the new metadata over the stored fields, the stored fields the metadata does not mention, and a stored output path unchanged |
| Rebuild.MergedRecordHolds | lib/hbar.py:271-281 | the merged record takes computed keys from the build, metadata keys from the info file and every other key from the store |
| Rebuild.WithOutputPathKeeps | lib/hbar.py:283-286 | `output path` is added only to a record lacking it, and nothing else changes |
| Rebuild.WrittenIsUpToDate | lib/hbar.py:262-274 | after a record is written, the next run without `force` skips the article |
| Rebuild.ForceNeverSkips | lib/hbar.py:266 | with `force` nothing is skipped |
| Rebuild.Outcomes | lib/hbar.py:295-297 | definition: the outcome of each article directory, in glob order |
| Rebuild.UpdateAllArticles | lib/hbar.py:292-300 | the run finishes iff no directory raises anything but `ValueError`, and its exit code is then the number of `ValueError`s; otherwise it stops at the first other exception |
| Rebuild.FailuresCounts | lib/hbar.py:298-299 | the exit code counts exactly the directories that raised `ValueError` |
| Sorting.Insert | lib/hbar.py:109 | insertion adds exactly the one element |
| Sorting.SortPermutes | lib/hbar.py:109-591 | `sorted` returns a permutation of its input |
| Sorting.SortSorted | lib/hbar.py:109-591 | for an ordering that relates every pair, the result is in order |
| Sorting.SortStable | lib/hbar.py:109-591 | elements with equal keys keep their relative order |
| Site.StoreLines | lib/hbar.py:95-96 | only stripped lines that are neither blank nor comments are kept |
| Site.StoreLinesDropsComments | lib/hbar.py:95-96 | the filter keeps exactly the stripped non-blank, non-comment lines, in their order |
| Site.Ordinal | lib/hbar.py:402-408 | the byline suffix is one of `st`, `nd`, `rd`, `th` |
| Site.OrdinalIsEnglish | lib/hbar.py:402-409 | on every day from 1 to 31 the suffix agrees with the general English rule for ordinals |
| Site.StrLeTotal | lib/hbar.py:454 | Python's string order relates every pair |
| Site.StrLeTransitive | lib/hbar.py:454 | Python's string order is transitive |
| Site.StrLeAntisymmetric | lib/hbar.py:454 | Python's string order is antisymmetric |
| Site.TagEntryOrder | lib/hbar.py:454 | the `(count, tag)` order reversed is a total preorder |
| Site.TagListOrder | lib/hbar.py:453-462 | the tag list is a permutation of the index entries, most used tag first; ties go in reverse string order of the tag |
| Site.RecentPosts | lib/hbar.py:473-474 | the recent posts are at most `count` (10) of the articles, newest first |
| Site.RecentPostsAreNewest | lib/hbar.py:473-474 | no article left out is newer than one shown |
| Site.RecentPostsStable | lib/hbar.py:473 | posts of the same date keep their order |
| Site.Occurrences | lib/hbar.py:113 | a tag occurs in a tag list iff it is listed there at least once |
| Site.IndexMap | lib/hbar.py:118 | the tag index maps exactly the ids of the list, each to its position; a repeated id maps to its last position |
| Site.Neighbour | lib/hbar.py:137-139 | a position in range gives the element there; any other gives None |
| Site.SeekNeighbour | lib/hbar.py:134-139 | a lookup in the tag-index fields gives the article `offset` places from the base's position |
| Site.IndexMapLast | lib/hbar.py:118 | an id's index is its last position in the list |
| Site.TagMembersContents | lib/hbar.py:112-114 | a tag's list holds exactly the ids of the articles whose tags include it |
| Site.TagOrigins | lib/hbar.py:112-114 | the store positions the list's elements come from never decrease |
| Site.TagMembersInStoreOrder | lib/hbar.py:105-114 | each element of a tag's list comes from an article listing the tag, at non-decreasing store positions |
| Site.TagMembersNotByDate | lib/hbar.py:105-131 | a two-article store whose newer article comes first: that article leads its tag's list, while the articles sorted by date put it last |
| Site.EmptyTagConsistent | lib/hbar.py:132 | looking up an unknown tag in the defaultdict adds an empty list and keeps the state consistent |
| Site.SiteState.constructor | lib/hbar.py:84-118 | builds articles sorted by date, the tag lists and indices of the store, the `about` link, one link per article and one per tag |
| Site.SiteState.SeekInTag | lib/hbar.py:134-139 | a `KeyError` iff the tag or the base article is not indexed; a found article belongs to the tag |
| Site.SiteState.SeekInTagNeighbour | lib/hbar.py:134-139 | with `j` the base's last position in the tag list, the result is the element at `j + offset` when that is in range, else None |
| Site.SiteState.SeekInTagSelf | lib/hbar.py:134-139 | seeking no distance from an article of the tag finds that article |
| Site.SiteState.ArticlesByTag | lib/hbar.py:130-132 | returns the tag's list, adding an empty entry for an unknown tag and changing nothing else |
| Site.TagIndex | lib/hbar.py:112-114 | the loading loop indexes exactly the tags some article lists, each with its member list |
| Site.AppendId | lib/hbar.py:113-114 | the inner loop appends the id once per listing of each of the article's tags |
| Site.IndexTags | lib/hbar.py:115-118 | each tag gets its position map and its `tag_` link, and the `about` and article links are kept |
| Pagination.ChunkFlatten | lib/hbar.py:582-584 | the chunks put back together give the input |
| Pagination.ChunkCount | lib/hbar.py:582-584 | there are ⌈len/n⌉ chunks, so an empty input gives none |
| Pagination.ChunkSizes | lib/hbar.py:582-584 | every chunk but the last holds exactly n items; the last holds one to n |
| Pagination.Links | lib/hbar.py:542-559 | the "more recent" link exists iff page > 1, the "older" link iff page < n_pages |
| Pagination.ListFooterShape | lib/hbar.py:542-564 | the footer has the "more recent" link iff page > 1, the "older" link iff page < n_pages, and the separator iff both are there |
| Pagination.PageLinkIsDirectory | lib/hbar.py:554-599 | a footer link to page k ≥ 2 is the canonical form of the directory that page is written to |
| Pagination.FirstPageLinkIsDirectory | lib/hbar.py:545-597 | the link to page 1 is the canonical form of the list's own directory |
| Pagination.LinksReachNeighbours | lib/hbar.py:542-599 | the footer links lead to the directories of the neighbouring pages |
| Pagination.Pages | lib/hbar.py:594-607 | definition: one page per chunk, numbered from 1, with the header link to its directory, its chunk and its footer |
| Pagination.ListPagesContents | lib/hbar.py:587-607 | read page after page, the lists hold the articles of the id list, each as often as it is listed, in descending date order (same-date articles in list order), on ⌈n/10⌉ pages of one to ten articles |
| Pagination.ListPagesLinked | lib/hbar.py:594-607 | each page's footer links to its neighbours' header links |
| Highlight.EscapeNewlines | lib/highlight.py:34 | escaping adds and removes no newline, keeps empty text empty and keeps a trailing newline trailing |
| Highlight.Split | lib/highlight.py:34 | `split('\n')` always gives at least one piece |
| Highlight.SplitPieces | lib/highlight.py:34 | the pieces hold no newline, there is one more piece than newlines, and the last is empty iff the text is empty or ends in a newline |
| Highlight.SplitJoin | lib/highlight.py:34 | joining the pieces with newlines gives the text back |
| Highlight.SpanWraps | lib/highlight.py:22-27 | `_span` gives nothing for empty code, the bare code for an empty class, and otherwise the code wrapped in a span of that class |
| Highlight.Pieces | lib/highlight.py:32-34 | one classed, escaped piece per token |
| Highlight.FormatLines | lib/highlight.py:30-43 | the generator loop yields what the fold `FormatLinesSpec` over the tokens gives |
| Highlight.FoldCounts | lib/highlight.py:35-41 | between tokens the loop has finished one line per newline so far, and holds a line under construction iff the text so far ends other than in a newline |
| Highlight.FoldNoNewline | lib/highlight.py:35-41 | no finished or pending line holds a newline |
| Highlight.FormatLinesNoNewline | lib/highlight.py:34-43 | no yielded line holds a newline |
| Highlight.FormatLinesCount | lib/highlight.py:35-43 | the lines yielded are one per newline of the token texts, plus one when text follows the last newline |
| Highlight.FormatLinesPlain | lib/highlight.py:30-43 | with no token classes, the joined lines are the escaped text less at most one final newline |
| Highlight.ToHtmlUnknownLanguage | lib/highlight.py:47-51 | an unknown language is highlighted as plain text |
| Highlight.GutterMatchesLines | lib/highlight.py:52-60 | the gutter and the highlighted code have the same number of lines, so every line has its number |
| Highlight.WordLength | lib/highlight.py:71 | `\w*` takes the longest prefix of word characters |
| Highlight.Language | lib/highlight.py:82-83 | the language is the word after the fence, `text` when there is none |
| Highlight.FirstCloser | lib/highlight.py:85-97 | the first line matching the closing fence, if any |
| Highlight.NextItem | lib/highlight.py:76-97 | each step consumes at least one line and never more than there are |
| Highlight.FencesPlainLine | lib/highlight.py:77-80 | a line that opens no fence is emitted as it is |
| Highlight.FencesUnclosed | lib/highlight.py:85-90 | an opener without a later closer is emitted as it is, and the lines after it are processed again |
| Highlight.FencesClosed | lib/highlight.py:91-96 | an opener with a closer later becomes one placeholder, and processing resumes after the closer |
| Highlight.Run | lib/highlight.py:73-98 | the stack machine emits what the front-to-back definition `Fences` gives |
| Highlight.ReadFence | lib/highlight.py:84-97 | the inner loop emits the opener's outcome, and leaves the stack to be processed from there |
| Highlight.ClosedAt | lib/highlight.py:91-96 | at the closer, the code collected with the closer's text before the fence becomes the placeholder, in the opener's language |
| Highlight.PlainLinesKept | lib/highlight.py:76-80 | lines that open no fence are emitted unchanged and in order |
| Highlight.ClosedFence | lib/highlight.py:81-96 | a closed fence is replaced by exactly one placeholder holding the lines between, the closer's text before its fence last |
| Highlight.NoCloserUnchanged | lib/highlight.py:85-90 | input without any closing fence is returned as it is |
| KaTeX.TestMeaning | lib/katex.py:37-42 | a block passes the test iff it starts with optional whitespace and then `\[` |
| KaTeX.StripOpener | lib/katex.py:47 | stripping shortens a block that passes the test and leaves any other block as it is |
| KaTeX.OpenerSplit | lib/katex.py:37-47 | stripping the opener takes off whitespace and `\[` and nothing else |
| KaTeX.CloserSplit | lib/katex.py:38-52 | stripping the closer takes off `\]` and trailing whitespace and nothing else |
| KaTeX.Opened | lib/katex.py:47 | only the first block changes |
| KaTeX.FirstEnd | lib/katex.py:49-53 | the first block ending in `\]` and whitespace, if any |
| KaTeX.Run | lib/katex.py:44-62 | on success exactly the first k blocks are deleted, k being one more than the index of the first block (the first one with its opener stripped) that ends in `\]`; the rendered element is appended to `parent`, or, when the renderer fails, nothing is appended and the blocks stay deleted. When no block ends that way, blocks and parent are as before |
| KaTeX.Scan | lib/katex.py:46-58 | the for/else loop counts and collects the blocks up to the first closing one, that one less its closer, or reports that there is none |
| KaTeX.SameBlock | lib/katex.py:47-53 | when one block holds both `\[` and `\]`, exactly that block is consumed |
| KaTeX.ConsumedText | lib/katex.py:47-60 | the consumed blocks joined by newlines are the renderer input wrapped in the opener and closer, with only whitespace outside them |
| Summarise.Level | lib/summarise.py:17 | heading levels lie between 0 and 6 |
| Summarise.LevelOfHeading | lib/summarise.py:11 | `h{n}` has level n, and it is the only tag with that level |
| Summarise.DemoteMeaning | lib/summarise.py:9-13 | h2 to h5 move down exactly one level, not further; h1, h6 and other tags stay |
| Summarise.ShiftTreeStep | lib/summarise.py:11-13 | one pass of the loop renames exactly the elements at that pass's level |
| Summarise.LowerHeadingLevels | lib/summarise.py:9-13 | the four passes over levels 5, 4, 3, 2 demote every element of the tree once |
| Summarise.LoweredLacksTopHeading | lib/summarise.py:9-13 | after lowering, no h2 is left anywhere in the tree |
| Summarise.LoweredShape | lib/summarise.py:9-13 | lowering keeps the shape of the tree and every element's attributes |
| Summarise.CutFrom | lib/summarise.py:20-26 | the number of children kept lies between the start and the end |
| Summarise.Summarise | lib/summarise.py:15-27 | the loop builds the root's tag, its attributes and its first `Cut` children |
| Summarise.Run | lib/summarise.py:29-31 | the summary is taken after the headings are lowered |
| Summarise.CutMeaning | lib/summarise.py:20-23 | no child before the cut meets the break condition, and the child at the cut does |
| Summarise.CutFromUnique | lib/summarise.py:20-23 | that characterisation fixes the cut point |
| Summarise.SummaryBlocks | lib/summarise.py:6-25 | at most three blocks are kept, and with three kept the summary ends right after the third |
| Summarise.SummaryLimiters | lib/summarise.py:17-26 | a heading or rule is kept only before the first block; a child neither block nor limiter never ends the summary |
| Summarise.SummaryWhole | lib/summarise.py:19-27 | with fewer than three blocks and no heading or rule after the first block, the summary is the whole root |
| Summarise.SummaryIdempotent | lib/summarise.py:19-27 | summarising a summary changes nothing |

## Left out

- File-system I/O is not modelled: reading and writing store files, `os.walk`, `shutil`, the deploy files and the Atom feed. What an article directory yields is given as an `ArticleDir` value.
- `_checksum_directory` is not modelled: the crc32 over file contents in `os.walk` order is an opaque integer in `ArticleDir`. Only its equality with the stored checksum matters.
- `ast.literal_eval` is not modelled: its results are the `Value` datatype, and a file it rejects is an alternative of `StoreRead` or `InfoRead`. A literal that is not a dictionary is `StoreRead.NotADict` or `InfoRead.InfoNotADict`, without its contents.
- `Metadata.Value`: Python's `bool` is a subclass of `int`; the model keeps them as separate alternatives, which changes no outcome of the casts.
- `Metadata.Value` has no tuple, set, dict or float alternative. So `cast_list(str)` of a tuple, a set or a dict (which gives the dict's keys) is not modelled, nor is `str` of such a value.
- `datetime` is not modelled: `fromisoformat` and `isoformat` are the parameter `normalise`, `strftime("%Y/%m")` is `yearMonth`, and dates in `SiteState` are integers on one time line.
- `unidecode` is not modelled: the slugs treat non-ASCII characters as dropped, where the source would first transliterate them.
- `Text.IsWordChar` and `Text.IsAsciiAlnum`: `\w` and `isalnum` are restricted to ASCII.
- Markdown is not modelled: conversion, extension registration and the `htmlStash`. A stashed placeholder is `Highlight.Stash`, holding the code and language of the html it stores.
- Pygments is not modelled: `get_lexer_by_name`, the lexers' token streams and `_get_ttype_class` are the `Lexers` parameter. `escape_html` is modelled.
- The `_TOKEN_CLASS_MAP` memo cache is not modelled: it only caches a foreign function.
- The KaTeX subprocess `tohtml` and `etree.fromstring` are the parameter `render`, which answers None where rendering raises (the `OSError` of `tohtml`); the `ImportError` check for the executable is not modelled.
- `KaTeXInline` is not modelled: it is an inline regex pattern handed to Markdown.
- `KaTeX.Run`: the rendered element is a string value, and `parent` is a list of them.
- `Summarise.Element`: element trees are immutable values. Retagging in place and aliasing between elements are not modelled, and neither are element text and tails.
- `Summarise.Summary`: the summary shares the kept children with the root; the model copies them as values.
- `string.Template` substitution and `_html_summary`, `_html_article` and `_html_meta` are not modelled; neither is the minifier `css_html_js_minify`.
- The `tags()` view of `SiteState`, `summary` and `apply_template` are not modelled.
- `Pagination.Chunk` requires `n > 0`; `_deploy_list` always passes 10.
- `Pagination.PageDirectory`: pathlib's normalisation of a path is not modelled beyond dropping an empty component.
- `Site.SiteState.constructor` requires distinct article ids: the global store is a Python dictionary literal.
- build.py, lib/styling.py and the series script are not part of this model: they are CLI glue, a static style table and unrelated numerics.
