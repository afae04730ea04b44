# WordPress to Astro: a verified model of the converter's core

This project models the core of a converter that turns a WordPress export
(WXR, an RSS/XML file) into Markdown posts for the Astro static-site generator.
It covers three parts:

- **Reading the export** (`Wp`, `wp.dfy`). Each exported element is an
  abstract record: its tag, its children's texts, its categories and its
  post-meta pairs. On these records the model covers:
  - `text_of`: a required-field lookup that either returns the text or fails
    with an error naming the tag and the parent.
  - The two extractors, `tag_parser` and `thumbnail_parser`, and the
    `parse_metadata` they build on. `parse_post` and `posts` also take any
    other extractor the caller supplies.
  - `parse_post`: a left-to-right merge of the extractors' fields over four
    required fields and an empty `tags`.
  - The generators `items_of_type` and `posts`. A generator is modelled as
    what it yields followed by the exception that ends it, if any. The loops
    are methods proved equal to that.
  - `attachments_by_id`: the attachment registry, filled in a loop.
- **The four content filters.** Each one is the Python `re.sub` of one
  concrete pattern, written as a scanner over `seq<char>`. Each scanner tries
  the pattern's alternatives in the order Python's backtracking matcher does.
  - `DeSpanFilter` (`despan.dfy`)
  - `RemoveImageLinksFilter` (`image_links.dfy`)
  - `IllustratedParagraphFilter` (`illustrated.dfy`)
  - `GalleryFilter` with its `image_markup` loop (`gallery.dfy`)
- **The Astro side** (`Astro`, `astro.dfy`). This covers `escape_quotes`, the
  text `create_markdown` writes, and the Markdown file name of a post.
  `Page` (`page.dfy`) is the five-field post record.

`strings.dfy` holds the string vocabulary shared by the modules: prefix tests,
first index, counting, replace-all, join and split. `wrappers.dfy` holds
`Option` and `Result`.

Two properties of the code are worth knowing, and the model states both:

- **One DeSpan pass does not remove nested spans.** Each pattern is applied
  once, so directly nested spans at the start of a line need two passes
  (`NestedSpansNeedTwoPasses`).
- **RemoveImageLinks also unwraps prefix matches.** The filter's docstring
  (`wpsite/wp.py:117-125`) says it removes links whose `href` is the image
  shown inside them. The back-reference in the pattern can backtrack, so the
  link is unwrapped whenever `src` is a non-empty prefix of `href`
  (`PrefixTargetUnwrapped`).

## Model

| member | source | states |
|---|---|---|
| Wp.TextOf | wpsite/wp.py:18-22 | Succeeds exactly when the child exists. Returns its text, or `""` for an empty child. Otherwise the error names the tag and the parent element's tag. |
| Wp.PostTagNamesYield | wpsite/wp.py:28-30 | Yields the nicename of every category whose domain is `post_tag`, in document order, with duplicates kept. Fails exactly when such a category lacks a nicename. |
| Wp.PostTagNames | wpsite/wp.py:30 | A failure is the missing-attribute error for `nicename`. |
| Wp.TagParser | wpsite/wp.py:25-32 | Returns `{'tags': names}` with exactly those nicenames. It fails exactly when collecting them fails. |
| Wp.ParseMetadata | wpsite/wp.py:35-40 | Returns the value of the first post-meta pair with the key, and only when that value is non-empty. It is absent exactly when no pair has the key or the first pair with the key has an empty value. |
| Wp.ThumbnailParser | wpsite/wp.py:43-53 | With no usable `_thumbnail_id` it returns `{}` without failing. Otherwise it returns `{'thumbnail': url}` from the registry, or fails with a key error naming an id the registry lacks. |
| Wp.ThumbnailFromRegistry | wpsite/wp.py:43-53 | Uses the registry built from the same export. The thumbnail extractor fails exactly when the post's thumbnail id belongs to no attachment of that export. |
| Wp.Defaults | wpsite/wp.py:59-65 | Succeeds exactly when title, post name, GMT date and content are all present. The record then has exactly the keys title, slug, pubDate, content and tags, with `tags` the empty string. Otherwise the error names the first missing field, in that order. |
| Wp.MergeAllOverride | wpsite/wp.py:66-68 | The `reduce` fails exactly when some extractor fails. On success a key is present iff the start record or some extractor has it. It takes its value from the last extractor that produced it, otherwise from the start record. |
| Wp.MergeAllFirstError | wpsite/wp.py:66-68 | When the `reduce` raises, it raises the exception of the first extractor that raises, and every extractor before it returned. |
| Wp.ParsePostOverride | wpsite/wp.py:56-68 | `parse_post` succeeds iff the required fields are present and every extractor succeeds. Each key comes from the last extractor that produced it, else from the defaults. A failure is the defaults' error when a required field is missing, and otherwise the exception of the first extractor that raises. |
| Wp.ParsePostDefaults | wpsite/wp.py:56-68 | With no extractors the record is the defaults. With the tag extractor alone, `tags` is replaced by the list of post_tag nicenames. |
| Wp.ParsePost | wpsite/wp.py:56-68 | Definition of `parse_post`; its contract is stated by `ParsePostOverride` and `ParsePostDefaults`. |
| Wp.ItemsOfTypeStream | wpsite/wp.py:71-77 | Definition of the `items_of_type` generator; its contract is stated by `ItemsOfTypeYields`. |
| Wp.ItemsOfTypeYields | wpsite/wp.py:71-77 | Yields exactly the items of the requested type that come before the first item lacking `wp:post_type`, in document order. If such an item exists, the generator then fails naming `wp:post_type` and `item`. |
| Wp.ItemsOfType | wpsite/wp.py:71-77 | The loop yields what the generator specification yields and stops with the same error. |
| Wp.PostStream | wpsite/wp.py:80-88 | Definition of the `posts` generator over `items_of_type`; its contract is stated by `PostsArePublished`, `PostsSucceed` and the abort lemmas. |
| Wp.ProcessPosts | wpsite/wp.py:86-88 | Definition of the loop body of `posts`; its contract is stated by `PostsArePublished`. |
| Wp.PostsArePublished | wpsite/wp.py:80-88 | `posts` yields, in order, the parsed records of a prefix of the published posts. It yields all of them when it does not fail, so attachments, drafts and other types never appear. When it does not fail is stated by `PostsSucceed`. |
| Wp.MissingFieldAbortsPosts | wpsite/wp.py:59-63 | A published post lacking a required field makes `posts` fail before it has yielded every published post. |
| Wp.MissingStatusAbortsPosts | wpsite/wp.py:87 | A post without `wp:status` makes `posts` fail, on that post or on an earlier item. |
| Wp.MissingTypeAbortsPosts | wpsite/wp.py:76 | An item without `wp:post_type` anywhere in the export makes `posts` fail. |
| Wp.UnparsedAbortsPosts | wpsite/wp.py:87-88 | A published post that `parse_post` rejects makes `posts` fail. |
| Wp.PostsSucceed | wpsite/wp.py:71-88 | `posts` runs to the end iff no item lacks `wp:post_type`, every post has `wp:status` and every published post parses. It then yields one record per published post. |
| Wp.Posts | wpsite/wp.py:80-88 | The loop over `items_of_type` yields and fails exactly as the `posts` generator specification does. |
| Wp.Register | wpsite/wp.py:93-96 | Definition of the registry loop over the attachments; its contract is stated by `RegisterOk`, `RegisterKeys` and `RegisterLastWins`. |
| Wp.Registry | wpsite/wp.py:91-97 | Definition of `attachments_by_id`; its contract is stated by `RegistryCoversAttachments` and `RegistryLastWins`. |
| Wp.RegisterOk | wpsite/wp.py:93-96 | Filling the registry succeeds exactly when every attachment has a post id and an attachment URL. |
| Wp.RegisterKeys | wpsite/wp.py:93-96 | The registry's keys are exactly the attachments' post ids. |
| Wp.RegisterLastWins | wpsite/wp.py:93-96 | An id maps to the URL of the last attachment that carries it. |
| Wp.RegistryCoversAttachments | wpsite/wp.py:91-97 | `attachments_by_id` succeeds exactly when no item lacks its post type and no attachment lacks its id or URL. Its keys are then the post ids of the export's attachments. |
| Wp.RegistryLastWins | wpsite/wp.py:94-96 | On a repeated post id, the later attachment of the export wins. |
| Wp.AttachmentsById | wpsite/wp.py:91-97 | The loop that fills `urls` returns the registry specification's result, including its errors. |
| DeSpanFilter.StripSpanEnds | wpsite/wp.py:111 | `span_end.sub`: never lengthens the text. Its effect is stated by `StripSpanEndsLine` and `StripSpanEndsBreak`. |
| DeSpanFilter.StripSpanStarts | wpsite/wp.py:110 | `span_start.sub`: never lengthens the text. Its effect is stated by `StripSpanStartsLine`, `StripSpanStartsMidLine` and `StripSpanStartsBreak`. |
| DeSpanFilter.DeSpan | wpsite/wp.py:113-114 | Definition of `DeSpanFilter.__call__`; its contract is stated by `DeSpanByLines`, `SpanWrappedLine` and `NestedSpansNeedTwoPasses`. |
| DeSpanFilter.StripSpanEndsLine | wpsite/wp.py:111 | On a single line, `</span>$` removes a trailing `</span>` and nothing else. |
| DeSpanFilter.StripSpanEndsBreak | wpsite/wp.py:111 | A `</span>` just before a line break is removed, and the rest of the text is processed independently. |
| DeSpanFilter.StripSpanStartsMidLine | wpsite/wp.py:110 | Away from a line start nothing is removed up to the next line break. After that break, removal resumes at a line start. |
| DeSpanFilter.StripSpanStartsLine | wpsite/wp.py:110 | On a single line, `^<span[^>]*?>` removes an opening `<span` up to its first `>`, and nothing else. |
| DeSpanFilter.StripSpanStartsBreak | wpsite/wp.py:110 | A line whose opening tag closes on the line loses that tag. The text after its line break is processed as a new line. |
| DeSpanFilter.DeSpanByLines | wpsite/wp.py:110-114 | When no opening tag runs across a line break, the filter acts line by line. Each line loses a trailing `</span>` and then a leading `<span…>`, and nothing else changes. |
| DeSpanFilter.SpanWrappedLine | wpsite/wp.py:113-114 | `<span attrs>inner</span>` on one line becomes `inner`. |
| DeSpanFilter.NestedSpansNeedTwoPasses | wpsite/wp.py:110-114 | One pass over `<span><span>x</span></span>` leaves `<span>x</span>`, and a second pass gives `x`, so the filter is not idempotent. |
| RemoveImageLinksFilter.MatchAt | wpsite/wp.py:127-129 | A match at a position starts with `<a`. The group it keeps starts after that position with `<img`, and is followed by `</a>`, where the match ends within the text. Which texts match is stated by `MatchAtLinked` and `GroupLinked`. |
| RemoveImageLinksFilter.Scan | wpsite/wp.py:131-132 | The scan of `sub` never lengthens what is left of the text. Its effect is stated by `ScanReplaced` and `NoLinkUnchanged`. |
| RemoveImageLinksFilter.RemoveImageLinks | wpsite/wp.py:131-132 | The filter never lengthens the text. Its effect is stated by `FilteredAt` and `LinkedImageFiltered`. |
| RemoveImageLinksFilter.NoLinkUnchanged | wpsite/wp.py:131-132 | Text in which `<a` never occurs is returned unchanged. |
| RemoveImageLinksFilter.ScanReplaced | wpsite/wp.py:131-132 | `sub(r'\2', …)` with a single match replaces the matched span by its second group and copies the text around it. |
| RemoveImageLinksFilter.GroupLinked | wpsite/wp.py:128 | The greedy URL group backtracks until the back-reference fits. It fits exactly when `src` is a non-empty prefix of `href`. |
| RemoveImageLinksFilter.MatchAtLinked | wpsite/wp.py:127-129 | At `<a href="H"><img src="S"></a>`, the pattern matches iff `S` is a non-empty prefix of `H`. The kept group is then exactly the `<img>` tag. |
| RemoveImageLinksFilter.FilteredAt | wpsite/wp.py:127-132 | In text whose only `<a` is such a link, the filter returns the text with the link replaced by its `<img>` tag when `S` is a non-empty prefix of `H`, and the text unchanged otherwise. |
| RemoveImageLinksFilter.LinkedImageFiltered | wpsite/wp.py:127-132 | `pre + link + post`, with link-free `pre` and `post`, becomes `pre + img + post` exactly when `S` is a non-empty prefix of `H`. Otherwise it is unchanged. |
| RemoveImageLinksFilter.PrefixTargetUnwrapped | wpsite/wp.py:128 | A link to `photo.jpg` around an image of `photo` is unwrapped even though the two URLs differ. |
| IllustratedParagraphFilter.IllustratedParagraph | wpsite/wp.py:148-149 | Definition of `IllustratedParagraphFilter.__call__`; its contract is stated by `OnlyLineBreaksAdded` and `IllustratedByLines`. |
| IllustratedParagraphFilter.OnlyLineBreaksAdded | wpsite/wp.py:146-149 | The filter never deletes anything. Every character other than a line break occurs in the output as often as in the input, and the output is longer by exactly the number of added line breaks. |
| IllustratedParagraphFilter.IllustrateMidLine | wpsite/wp.py:146 | In mid-line the pattern cannot match, so a line's text is copied up to the next line break. |
| IllustratedParagraphFilter.IllustrateLineAlone | wpsite/wp.py:146-149 | A single line gets `\n\n` after a leading `<img…>` that runs straight into a non-space character, and is unchanged otherwise. |
| IllustratedParagraphFilter.IllustrateBreak | wpsite/wp.py:146-149 | A line whose tag closes on the line is filtered on its own. The text after its line break is filtered as a new paragraph start. |
| IllustratedParagraphFilter.IllustratedByLines | wpsite/wp.py:146-149 | When no `<img` tag runs across a line break, the output is the input with `\n\n` inserted after each line-initial image followed by non-whitespace. Images in mid-line or followed by whitespace are untouched. |
| IllustratedParagraphFilter.ImageThenText | wpsite/wp.py:146-149 | `<img attrs>text` with text starting in a non-space character becomes `<img attrs>`, a blank line, then `text`. |
| GalleryFilter.MatchGallery | wpsite/wp.py:153 | A match has a positive length within the text, and its id group is a non-empty run of digits and commas. |
| GalleryFilter.MatchShortcode | wpsite/wp.py:153 | `[gallery ids="G…]` with id list `G` and at least one other character before `]` matches as a whole, with group `G`. |
| GalleryFilter.ClosingBracketGivesBack | wpsite/wp.py:153 | For every id list directly followed by `]`, the match covers the shortcode with the list minus its last character as the group. A single id character gives no match. |
| GalleryFilter.ClosingBracketTakesADigit | wpsite/wp.py:153 | When `]` follows the ids directly, `[^]]+` takes the last id character, so `[gallery ids="12]` yields group `1`. |
| GalleryFilter.Markup | wpsite/wp.py:161-171 | Definition of what `image_markup` returns; its contract is stated by `MarkupOfIds`, `KnownIdsCount`, `AllKnown` and `NoneKnown`. |
| GalleryFilter.ImageMarkup | wpsite/wp.py:161-171 | The loop over the split ids returns the tags of the known ids joined by blank lines. |
| GalleryFilter.GalleryTagsSnoc | wpsite/wp.py:163-170 | Each further id appends its `<img class="wp-image-ID" src="URL">` tag exactly when the registry knows the id. |
| GalleryFilter.KnownIdsCount | wpsite/wp.py:164-170 | A known id is kept as many times as it is listed, and an unknown id is dropped. |
| GalleryFilter.AllKnown | wpsite/wp.py:164-170 | When every id is known, all of them are kept, in order. |
| GalleryFilter.NoneKnown | wpsite/wp.py:161-171 | When no id is known, the shortcode becomes `''`. |
| GalleryFilter.MarkupOfIds | wpsite/wp.py:161-171 | For comma-joined ids, the markup is one tag per known id, in list order, joined by `\n\n`. |
| GalleryFilter.ThirdIdDropped | wpsite/wp.py:161-171 | Of ids `a,b,c` with only `a` and `b` known, the markup is tag(a), a blank line, then tag(b). |
| GalleryFilter.Gallery | wpsite/wp.py:158-159 | Definition of `GalleryFilter.__call__`; its contract is stated by `GalleryPlain`, `NoShortcodeUnchanged` and `ShortcodeExpanded`. |
| GalleryFilter.GalleryPlain | wpsite/wp.py:158-159 | Text at no position of which a shortcode match starts is copied unchanged, and the filter goes on with the rest. |
| GalleryFilter.NoShortcodeUnchanged | wpsite/wp.py:158-159 | Text in which no shortcode match starts is returned unchanged. |
| GalleryFilter.NoBracketUnchanged | wpsite/wp.py:153-159 | Text without `[` is returned unchanged. |
| GalleryFilter.ShortcodeExpanded | wpsite/wp.py:153-159 | When the shortcode is the leftmost match, `pre + shortcode + post` becomes `pre + markup + filtered post`. |
| Astro.EscapeBody | wpsite/astro.py:12 | Definition of `text.replace('"', '\\"')`; its contract is stated by `EscapeBodyAppend`, `EscapeBodyCons` and `UnescapeBody`. |
| Astro.EscapeQuotes | wpsite/astro.py:11-12 | The result starts and ends with `"`. |
| Astro.EscapeBodyAppend | wpsite/astro.py:12 | Escaping works piece by piece. With `EscapeBodyCons`, each `"` becomes `\"` and every other character is copied in order. |
| Astro.EscapeLength | wpsite/astro.py:11-12 | The output length is the input length, plus 2, plus the number of `"`. |
| Astro.QuoteFreeWrapped | wpsite/astro.py:11-12 | A text without `"` maps to `'"' + text + '"'`. |
| Astro.UnescapeBody | wpsite/astro.py:12 | Replacing `\"` by `"` from left to right undoes the escaping of the body. |
| Astro.EscapeRoundTrip | wpsite/astro.py:11-12 | Stripping the delimiters and then unescaping recovers the original title. |
| Astro.EscapeAddsNoNewline | wpsite/astro.py:12 | Escaping adds no line break. |
| Astro.PostDirectory.Filename | wpsite/astro.py:14-16 | The file lies one level below the content directory. |
| Astro.FilenameParts | wpsite/astro.py:14-16 | For a dot-free slug, the file sits in the content directory, its stem is the slug and its suffix is `.md`. |
| Astro.FrontMatterText | wpsite/astro.py:22-28 | Definition of the text `create_markdown` writes; its contract is stated by `FrontMatterRoundTrip`. |
| Astro.PostDirectory.MarkdownText | wpsite/astro.py:18-28 | The text written for the directory's post; its contract is stated by `FrontMatterRoundTrip`. |
| Astro.FrontMatterRoundTrip | wpsite/astro.py:22-28 | Reading the written text back yields the title, the date and the content. |

## Left out

- XML parsing (`ElementTree.iterparse`, namespaced paths, `find`/`iterfind`) belongs to a foreign library. The export is a sequence of element records in the reader's order. A child's text is looked up by tag, and the first child with a tag wins.
- Element records carry no other attributes. The `parse_metadata` path is modelled as "the first post-meta pair with the key". A post-meta entry always carries a value (`PostMeta(key, value)`), so the model cannot represent a `wp:postmeta` with the key but without a `wp:meta_value` child. The XPath `find` would skip such an entry and take a later one.
- `source.seek(0)` is I/O. Each scan is a fresh pass over the sequence.
- `logging.warning` in `thumbnail_parser` has no modelled effect. That branch returns `{}`.
- The `Page(filters=…, **record)` construction in `posts` (`wpsite/wp.py:88`) is not modelled. As written it raises `TypeError`: the `Page` dataclass (`wpsite/page.py:5-10`) has only the fields title, slug, pubDate, tags and content, so it accepts neither `filters` nor `thumbnail`. The source's `posts` therefore fails on the first published post that parses. The model deliberately yields the `parse_post` record there instead, which is what a caller of `posts` expects. `PostStream`, `Posts`, `PostsArePublished`, `PostsSucceed` and the abort lemmas describe this intended behaviour, not the code as written. Filters are never applied to a page.
- `Page` methods used only by the tests (`markdown`, `attachment_ids`), `ContentParser`, `create_page` and HTML-to-Markdown conversion are not part of this model.
- `convert_to_markdown` is not part of this model. It is glue that calls `HostedImageFilter` and `fetch_attachments`, for which there is no source.
- Downloading attachments and rewriting hosted image URLs are not part of this model.
- In `create_markdown`, the directory creation and the file write are I/O. Only the text written is modelled.
- Astro.PostDirectory.Filename: requires a non-empty slug without `.` or `/`. `Path.with_suffix` on a dotted or empty name, and a slug that adds path components, depend on library behaviour. Its own contract states only the path's length; the placement, stem and suffix are stated by `FilenameParts`.
- Astro.FrontMatterRoundTrip: requires a title and date without line breaks. Otherwise the written text cannot be read back unambiguously. The text itself is given for every title and date.
- Regular expressions are not modelled in general. Only the four patterns of the filters are written out. `\s` is Python's full whitespace set (what `str.isspace` accepts). `\w`, used by the `\b` of RemoveImageLinks' pattern, is its ASCII form: a non-ASCII letter or digit just before `href` or `src` counts as a word character in Python but not in the model.
- An extractor handed to `posts` or `parse_post` by the caller is a total function from an element to a record or an error (`Custom`). An exception it raises is `Raised(message)`; its type is not modelled.
- RemoveImageLinksFilter.LinkedImageFiltered: stated for the canonical link `<a href="H"><img src="S"></a>`. The URLs contain no `"`, `<`, `>` or `=`, and the surrounding text holds no `<a`. The filter itself is defined on every text.
- RemoveImageLinksFilter.FilteredAt: stated under the same restrictions as `LinkedImageFiltered`.
- DeSpanFilter.DeSpanByLines: requires that no opening `<span` tag runs across a line break. The filter itself handles such tags, which are removed across the break.
- IllustratedParagraphFilter.IllustratedByLines: requires that no line-initial `<img` tag runs across a line break. The filter itself handles such tags.
