# Danbooru source extractors, bulk update scripts and front-end utilities in Dafny

This project models the pure decision logic at the core of Danbooru, with proofs about it:

- **DLSite URL classifier** (`Dlsite`): the first-match-wins rules that read a product, maker or author from a DLSite URL, and the canonical page and profile URLs rebuilt from the result.
- **Patreon extractor** (`Patreon`): the rich-text-to-HTML renderer (headings, escaped text, marks folded over a node's output), image URLs deduplicated by media key, the choice between the API image and the URL itself, profile URLs, tags, poll choices ordered by position, and the poll commentary.
- **Tumblr extractor** (`Tumblr`): the largest size of each photo, the `image_urls` accumulation, page and profile URLs, the commentary fields chosen by post type, deduplicated tag pairs, tag normalisation, and the reblog trail flattened into quoted blocks.
- **URL shortener extractor** (`UrlShortener`): the per-domain table that turns one HTTP response into a destination or nothing, with each domain's status codes and error sentinels; the cap on chains of shorteners; the empty results without a sub-extractor.
- **Bulk update request scripts** (`BulkUpdateRequest`): the line parser, with case-insensitive keywords tried in order and a catch-all invalid line; the DText rendering; the affected tags; the length limit; the rule that lets builders approve tag moves.
- **Front-end utilities** (`Utility`): `clamp`, `is_subset`, `intersect` (a merge of two sorted copies) and `regexp_escape`.
- **Site icons** (`IconHelper`): the canonical site name, the table from site names to logo files, the choice between a logo and the globe icon, and the class string of an SVG icon.

`Common` holds shared string helpers:

- Ruby's `blank?`/`present?` over Unicode whitespace;
- `CGI.escapeHTML` with its five-character table, and its inverse;
- split and join, and `gsub` of one character;
- `strip`, `lstrip` and `rstrip`;
- the first of three values that is not nil (`a || b || c`);
- `uniq_by`;
- a character-order sort.

HTTP responses, API payloads and parsed URLs are input records. Collaborators whose code is not part of this model are function parameters:

- `Tag.normalize_name`;
- the tag category pattern;
- `PostQuery`;
- `Danbooru::URL.escape`;
- the tag lookup;
- `Source::URL.parse` and `Source::Extractor.find`.

## Model

| member | source | states |
|---|---|---|
| Dlsite.LeadingProductId | app/logical/source/url/dlsite.rb:20-22 | the capture is a prefix of the file name |
| Dlsite.LeadingProductIdMatches | app/logical/source/url/dlsite.rb:20-22 | the capture is the longest prefix matching `[A-Z]+\d+` (the character after it is no digit), and there is none exactly when no prefix matches |
| Dlsite.Parse | app/logical/source/url/dlsite.rb:15-84 | a work type is "work" or "announce" and comes with a product id; maker and author ids exclude a product and each other and come with a category; a URL outside dlsite.com and dlsite.jp fills no field |
| Dlsite.PageUrl | app/logical/source/url/dlsite.rb:86-92 | present iff work type and product id are present; on `https://www.dlsite.com/`, under the parsed category or else "maniax", ending in ".html" |
| Dlsite.ProfileUrl | app/logical/source/url/dlsite.rb:94-100 | nil iff there is no maker or author id; a maker id gives the maniax circle profile with ".html", otherwise an author id gives the books author page without it |
| Dlsite.NetDomainUnmatched | app/logical/source/url/dlsite.rb:7-9 | a dlsite.net URL is accepted by `match?` but fills no field, so it has neither page nor profile URL |
| Dlsite.Match | app/logical/source/url/dlsite.rb:7-9 | no contract; see CiEnNotMatched and NetDomainUnmatched |
| Dlsite.CiEnNotMatched | app/logical/source/url/dlsite.rb:7-9 | the host ci-en.dlsite.com is not matched |
| Dlsite.ImageWorkRule | app/logical/source/url/dlsite.rb:20-22 | an img.dlsite.jp work/ana image gives the file name's leading product id, "announce" iff the segment is "ana", and no category |
| Dlsite.ImagePartsRule | app/logical/source/url/dlsite.rb:26-28 | an img.dlsite.jp parts image gives the fifth path segment as product id, "announce" iff the parts segment contains "ana" |
| Dlsite.HtmlSuffixIgnored | app/logical/source/url/dlsite.rb:43-65 | adding ".html" to the last segment leaves the parse unchanged except for an author id, and never changes the page URL |
| Dlsite.AuthorIdKeepsHtml | app/logical/source/url/dlsite.rb:70-72 | an author id keeps its ".html", so the two spellings give different profile URLs |
| Dlsite.PageUrlFixpoint | app/logical/source/url/dlsite.rb:43-46 | parsing the canonical page URL gives back the same page URL |
| Dlsite.CanonicalPage | app/logical/source/url/dlsite.rb:86-92 | the page URL split into host and path segments: on www.dlsite.com, and joining the segments gives the page URL |
| Dlsite.ImageWorkExample | test/unit/source/url/dlsite_url_test.rb:49 | the sample work image parses to work RJ01182574 without category |
| Dlsite.ImagePartsExample | test/unit/source/url/dlsite_url_test.rb:52 | the sample parts_ana image parses to announce RJ01029765 |
| Dlsite.EnglishWorkExample | test/unit/source/url/dlsite_url_test.rb:69 | eng.dlsite.com's short work URL parses to maniax, work, RE022725 |
| Dlsite.MakerProfileExample | test/unit/source/url/dlsite_url_test.rb:74 | a maker profile keeps its category and drops ".html" from the maker id |
| Dlsite.AuthorProfileExample | test/unit/source/url/dlsite_url_test.rb:81 | an author page keeps its category and author id |
| Patreon.TextHtml | app/logical/source/extractor/patreon.rb:102-103 | escaped text with `<br>` for newlines has no newline, and reading back the breaks and entities gives the text |
| Patreon.TextRoundTrip | app/logical/source/extractor/patreon.rb:103 | unescaping and un-breaking the rendered text gives the original text, for every text |
| Patreon.HeadingLevel | app/logical/source/extractor/patreon.rb:109 | the level lies in 1..6, equals an in-range level, and is 1 below and 6 above the range |
| Patreon.RenderHeading | app/logical/source/extractor/patreon.rb:108-110 | a heading renders as `<hN>` … `</hN>` with one clamped level N for both tags |
| Patreon.ApplyMark | app/logical/source/extractor/patreon.rb:129-149 | one mark wraps the body between its opening and its closing tag |
| Patreon.MarkClose | app/logical/source/extractor/patreon.rb:143-147 | a mark has a closing tag iff it has an opening tag, so a link without href and an unknown mark add neither |
| Patreon.MarksNest | app/logical/source/extractor/patreon.rb:129-149 | folding the marks nests them: the first mark's tags are innermost |
| Patreon.MarksAppend | app/logical/source/extractor/patreon.rb:129 | folding two mark lists is folding the first, then the second |
| Patreon.InertMarks | app/logical/source/extractor/patreon.rb:143-148 | marks that add no tags (unknown, or a link with a blank href) leave the body unchanged |
| Patreon.RenderAllAppend | app/logical/source/extractor/patreon.rb:94-95 | an array renders as its children's HTML concatenated in order |
| Patreon.RenderScalar | app/logical/source/extractor/patreon.rb:150-151 | a scalar renders escaped: no markup character, and unescaping gives its text back |
| Patreon.RenderText | app/logical/source/extractor/patreon.rb:102-103 | a text node renders as its marks around the escaped, line-broken text |
| Patreon.RenderImageWithoutSource | app/logical/source/extractor/patreon.rb:119-121 | an image without a source renders nothing but its marks, and "" without marks |
| Patreon.Render | app/logical/source/extractor/patreon.rb:92-153 | no contract; see RenderScalar, RenderText, RenderHeading, RenderImageWithoutSource, RenderChildrenOnly, RenderAllAppend, MarksNest, MarksAppend and InertMarks |
| Patreon.RenderAll | app/logical/source/extractor/patreon.rb:94-95 | no contract; see RenderAllAppend |
| Patreon.NodeHtml | app/logical/source/extractor/patreon.rb:99-127 | no contract; see RenderText, RenderHeading, RenderImageWithoutSource and RenderChildrenOnly |
| Patreon.ApplyMarks | app/logical/source/extractor/patreon.rb:129-149 | no contract; see MarksNest, MarksAppend and InertMarks |
| Patreon.RenderChildrenOnly | app/logical/source/extractor/patreon.rb:97-127 | a doc, a link without href, an unknown or untyped node renders only its children inside its marks |
| Patreon.ImageUrlsFromApi | app/logical/source/extractor/patreon.rb:16-22 | the result is an ordered subsequence of the display URLs, holding exactly the URLs of the first media record of each key; it is the display URLs of the records that no earlier record shares a key with, in order and with repeats |
| Patreon.SameDisplayUrlTwice | app/logical/source/extractor/patreon.rb:20-21 | two records with different keys and the same display URL give that URL twice |
| Common.UniqBy | app/logical/source/extractor/patreon.rb:20 | `uniq` by a key keeps, in order, exactly the elements that no earlier element shares a key with |
| Common.UniqFromFirsts | app/logical/source/extractor/patreon.rb:20 | deduplicating from an index on, with the earlier keys already seen, keeps exactly the first element of each key |
| Patreon.UniqueHoldsFirst | app/logical/source/extractor/patreon.rb:20 | the first record with a given key survives deduplication |
| Patreon.ImageUrlFromApi | app/logical/source/extractor/patreon.rb:24-27 | nil without a media hash; otherwise the first API URL with the same media hash, or nil when none has it |
| Patreon.ImageUrls | app/logical/source/extractor/patreon.rb:5-14 | an image URL gives exactly the API URL `image_url_from_api` finds when it is present, and itself otherwise; any other URL gives the API list |
| Patreon.ProfileUrls | app/logical/source/extractor/patreon.rb:29-35 | one entry per present value: the vanity URL first, then `user?u=<id>` last |
| Patreon.Tags | app/logical/source/extractor/patreon.rb:45-49 | one pair per post tag, in order, each pairing the tag with the profile's tag-filter URL |
| Patreon.InsertChoice | app/logical/source/extractor/patreon.rb:172 | inserting a choice keeps the list ordered by position and adds exactly that choice |
| Patreon.PollChoices | app/logical/source/extractor/patreon.rb:171-173 | the poll choices, ordered by position, as a permutation of the included choices |
| Patreon.SortChoices | app/logical/source/extractor/patreon.rb:172 | the choices come out ordered by position and are a permutation of the choices given |
| Patreon.CommentaryDesc | app/logical/source/extractor/patreon.rb:55-69 | a poll gives the content, the escaped question, and the list of one `<li>` line per choice in position order, joined by "\n"; other posts give the content |
| Patreon.ChoiceItems | app/logical/source/extractor/patreon.rb:65 | one `<li>` item per choice, in order, holding the escaped choice text (nil as empty), from which unescaping gives the text back |
| Tumblr.Biggest | app/logical/source/extractor/tumblr.rb:27 | the index of the size with the greatest width × height, the first such on ties |
| Tumblr.PhotoUrl | app/logical/source/extractor/tumblr.rb:26-28 | the URL of a size among the original and alternative sizes whose area no other size exceeds |
| Tumblr.PostAssets | app/logical/source/extractor/tumblr.rb:23-33 | a photo post gives one URL per photo in order; a video post gives its URL only when present; other posts nothing |
| Tumblr.FlatMapAppend | app/logical/source/extractor/tumblr.rb:36 | re-extracting the assets distributes over concatenation |
| Tumblr.FlatMap | app/logical/source/extractor/tumblr.rb:36 | no URLs give no images; see FlatMapAppend for the concatenation |
| Tumblr.ImageUrls | app/logical/source/extractor/tumblr.rb:10-39 | the full image URL's requested image or the URL; else exactly the first candidate that exists, or the URL when none does; else the URL for an image; else the re-extracted post assets followed by the inline media |
| Tumblr.ProfileUrl | app/logical/source/extractor/tumblr.rb:45-47 | present iff the username is present, as an https tumblr.com blog URL |
| Tumblr.PageUrl | app/logical/source/extractor/tumblr.rb:41-43 | present iff both username and work id are present |
| Tumblr.PageUnderProfile | app/logical/source/extractor/tumblr.rb:41-47 | the page URL is the profile URL followed by `/post/<work id>` |
| Common.Or3 | app/logical/source/extractor/tumblr.rb:222-228 | `username` and `work_id`: the value from the URL first, then the referer, then the image page (Patreon's `username`, at app/logical/source/extractor/patreon.rb:41-43, is the same choice with the vanity name last) |
| Tumblr.ApiRequestFor | app/logical/source/extractor/tumblr.rb:230-236 | a request is made iff the site is enabled and both ids are present, to the blog's posts endpoint with the work id |
| Tumblr.CommentaryTitle | app/logical/source/extractor/tumblr.rb:49-57 | a title only for text and link posts, and then the post's title |
| Tumblr.CommentaryDesc | app/logical/source/extractor/tumblr.rb:59-76 | body, description, caption or answer by post type, nil for any other type |
| Tumblr.Tags | app/logical/source/extractor/tumblr.rb:78-82 | no pair twice, every tag's pair present, every pair a post tag with its tagged URL; exactly the first occurrence of each pair, in the order of the tags |
| Tumblr.TagPairs | app/logical/source/extractor/tumblr.rb:79-80 | one pair per tag, in order: the tag and its tumblr.com/tagged URL |
| Tumblr.RepeatedTagKeepsFirstPlace | app/logical/source/extractor/tumblr.rb:78-82 | tags a, b, a give the pairs of a and b, in that order |
| Common.Uniq | app/logical/source/extractor/tumblr.rb:81 | `uniq`: no element twice, none lost or added, and exactly the first occurrence of each element in order |
| Tumblr.NormalizeTag | app/logical/source/extractor/tumblr.rb:84-87 | no contract; see NormalizeTagHyphenBlind |
| Tumblr.NormalizeTagHyphenBlind | app/logical/source/extractor/tumblr.rb:84-87 | tags differing only in "-" against "_" normalise alike, and no "-" reaches the base normalisation |
| Tumblr.AltEnd | app/logical/source/extractor/tumblr.rb:98 | the lazy `(.*?)" srcset=` match: the first closer on the same line, and none when no closer comes before the first newline |
| Tumblr.AltEndAt | app/logical/source/extractor/tumblr.rb:98 | an alt text without newline and without a closer inside is matched up to the closer after it |
| Tumblr.FixAltAttribute | app/logical/source/extractor/tumblr.rb:97-99 | one alt attribute has each raw quote of its text replaced by `&quot;`, the closer kept, and the rest fixed in turn |
| Common.Replace | app/logical/source/extractor/tumblr.rb:98 | `gsub` of one character: no such character is left when the replacement has none |
| Common.ReplaceSplitJoin | app/logical/source/extractor/tumblr.rb:98 | replacing a character is splitting at it and joining with the replacement: every other character is kept in order, each occurrence becomes one replacement |
| Common.ReplaceAppend | app/logical/source/extractor/patreon.rb:102-103 | replacing distributes over concatenation |
| Common.ReplaceAbsent | app/logical/source/extractor/patreon.rb:102-103 | text without the character is unchanged |
| Tumblr.FixAlt | app/logical/source/extractor/tumblr.rb:98 | no contract; see FixAltPlain and FixAltAttribute |
| Tumblr.FixAltPlain | app/logical/source/extractor/tumblr.rb:98 | content without an alt attribute is left unchanged |
| Tumblr.Chomp | app/logical/source/extractor/tumblr.rb:102 | removes one trailing "\r\n", "\n" or "\r", and nothing else |
| Tumblr.LinearCommentaryDesc | app/logical/source/extractor/tumblr.rb:89-138 | an empty trail gives the commentary; otherwise one block per trail item, joined without separator |
| Tumblr.TrailBlock | app/logical/source/extractor/tumblr.rb:93-133 | no contract; see CurrentItemVerbatim and EarlierItemQuoted |
| Tumblr.Blocks | app/logical/source/extractor/tumblr.rb:93-133 | one block per trail item, in order, each the TrailBlock of that item |
| Tumblr.LinearSplits | app/logical/source/extractor/tumblr.rb:93-137 | the blocks of a split trail are the blocks of each part, in order |
| Tumblr.CurrentItemVerbatim | app/logical/source/extractor/tumblr.rb:126-127 | the current item, unless a root answer, is its content as is |
| Tumblr.EarlierItemQuoted | app/logical/source/extractor/tumblr.rb:128-135 | any other item that is not a root answer is a blockquote crediting its blog's post URL |
| UrlShortener.Header | app/logical/source/extractor/url_shortener.rb:51 | a header's value, or nil when the response lacks it |
| UrlShortener.RedirectUrl | app/logical/source/extractor/url_shortener.rb:37-131 | a destination, when there is one, is a header value, the final URL or the final URL's `url` parameter of the response to the probe the matched rule makes |
| UrlShortener.RuleFor | app/logical/source/extractor/url_shortener.rb:40-127 | amzn.asia takes any path; other known shorteners need exactly one path segment; everything else falls back |
| UrlShortener.ProbeFor | app/logical/source/extractor/url_shortener.rb:44-130 | the request each rule makes: HEAD without following for amzn.to and the fallback, the transit URL for hoyo.link with `q`, the curl agent exactly for t.co and bit.ly |
| UrlShortener.Unless | app/logical/source/extractor/url_shortener.rb:61 | a URL is kept iff present and not a sentinel |
| UrlShortener.Destination | app/logical/source/extractor/url_shortener.rb:44-131 | amzn.to needs 301 and reurl.cc 200; t.cn needs 200..399; the fallback needs a redirect and a non-relative Location; the answer comes from the header each rule reads; amzn.to, reurl.cc and the fallback resolve exactly then, and hoyo.link with `q` gives the `url` parameter or else the final URL; the other rules are LocationRulesResolve and FollowedRulesResolve |
| UrlShortener.LocationRulesResolve | app/logical/source/extractor/url_shortener.rb:66-113 | naver.me resolves iff the response is a redirect with a Location; pin.it iff that Location is also neither error page; t.cn iff the status is 200..399, there is a Location, and it is not the weibo.com/sorry page |
| UrlShortener.FollowedRulesResolve | app/logical/source/extractor/url_shortener.rb:44-125 | amzn.asia, skfb.ly, twitter/x/t.co and bit.ly/j.mp/pse.is give the final URL; hoyo.link without `q`, posty.pe, shorturl.at and xhslink.com give it iff there is one that is not their error page |
| UrlShortener.SentinelsRejected | app/logical/source/extractor/url_shortener.rb:61-113 | the error URLs of hoyo.link, pin.it, posty.pe, shorturl.at, xhslink.com and t.cn never come out |
| UrlShortener.DestinationFromResponse | app/logical/source/extractor/url_shortener.rb:40-131 | a destination is always a header value, the final URL or its `url` parameter |
| UrlShortener.ReadsOnlyWhatItAsked | app/logical/source/extractor/url_shortener.rb:40-131 | responses that agree on what the rule reads give the same destination |
| UrlShortener.NoLocationNoDestination | app/logical/source/extractor/url_shortener.rb:48-130 | the Location-reading rules give nothing without a Location header |
| UrlShortener.CountShorteners | app/logical/source/extractor/url_shortener.rb:32 | the count is at most the number of parents, and 0 iff no parent is a shortener |
| UrlShortener.SubExtractor | app/logical/source/extractor/url_shortener.rb:30-35 | nil with more than five shortener ancestors, else the dispatched extractor |
| UrlShortener.ChainBounded | app/logical/source/extractor/url_shortener.rb:30-35 | even when every link leads to another shortener, the chain visits at most seven shorteners, exactly seven minus the shortener ancestors it starts with |
| UrlShortener.Reported | app/logical/source/extractor/url_shortener.rb:7-28 | with a sub-extractor its values; without one, empty lists and nil scalars |
| UrlShortener.TooDeepReportsNothing | app/logical/source/extractor/url_shortener.rb:7-35 | a shortener too deep in a chain reports nothing at all |
| BulkUpdateRequest.UnifyNewlines | app/logical/bulk_update_request_processor.rb:32 | no carriage return is left, and a script without one is unchanged; see UnifyInterleave and UnifyBreak |
| BulkUpdateRequest.SplitLines | app/logical/bulk_update_request_processor.rb:32 | at least one line, none holding "\n" or "\r"; that "\r\n", "\r" and "\n" all end a line, with the text between kept, is SplitLinesInterleave |
| BulkUpdateRequest.SplitLinesInterleave | app/logical/bulk_update_request_processor.rb:32 | lines without line-break characters, separated by any mix of "\r\n", "\r" and "\n" (no lone "\r" before an empty line and a "\n", which would read as one "\r\n"), split back into exactly those lines |
| BulkUpdateRequest.UnifyInterleave | app/logical/bulk_update_request_processor.rb:32 | rewriting every "\r\n", "\r" and "\n" of such a script as "\n" gives its lines joined by "\n" |
| BulkUpdateRequest.UnifyBreak | app/logical/bulk_update_request_processor.rb:32 | each of the three line breaks becomes exactly one "\n" |
| BulkUpdateRequest.LinesRoundTrip | app/logical/bulk_update_request_processor.rb:32 | without "\r", joining the split lines with "\n" gives the script back |
| BulkUpdateRequest.NonBlankLines | app/logical/bulk_update_request_processor.rb:32 | keeps lines of the input that are not blank, and every line when none is blank |
| BulkUpdateRequest.NonBlankLinesAppend | app/logical/bulk_update_request_processor.rb:32 | dropping blank lines distributes over concatenation |
| BulkUpdateRequest.CollapseSpaces | app/logical/bulk_update_request_processor.rb:33 | never longer than the line; the result starts with a space iff the line starts with whitespace; that the text is kept and each run becomes one space is CollapseKeepsSolid, CollapseAppend and CollapseBlankRun |
| BulkUpdateRequest.CollapseCollapsed | app/logical/bulk_update_request_processor.rb:33 | the only whitespace left is the space, never two in a row |
| BulkUpdateRequest.CollapseKeepsSolid | app/logical/bulk_update_request_processor.rb:33 | the characters that are not whitespace are kept, in order, and none is added |
| BulkUpdateRequest.CollapseAppend | app/logical/bulk_update_request_processor.rb:33 | collapsing distributes over a concatenation whose seam is not inside a whitespace run, so text between runs is kept as is |
| BulkUpdateRequest.CollapseBlankRun | app/logical/bulk_update_request_processor.rb:33 | a non-empty run of whitespace becomes exactly one space |
| BulkUpdateRequest.CollapseKeepsText | app/logical/bulk_update_request_processor.rb:33 | the result holds a character other than whitespace and NUL iff the line did |
| BulkUpdateRequest.NormalizeLine | app/logical/bulk_update_request_processor.rb:33-34 | the line is normalised, and empty iff it held nothing but whitespace and NUL; that it is the collapsed line with only its ends cut is NormalizeLineTrims |
| BulkUpdateRequest.NormalizeLineTrims | app/logical/bulk_update_request_processor.rb:33 | `strip` leaves a slice of the collapsed line, cutting off only characters it removes |
| BulkUpdateRequest.NormalizeLineIdempotent | app/logical/bulk_update_request_processor.rb:33 | normalising twice is normalising once |
| BulkUpdateRequest.PairArgs | app/logical/bulk_update_request_processor.rb:37 | `(\S+) -> (\S+)`: two words around the arrow that make up the whole rest |
| BulkUpdateRequest.PairArgsComplete | app/logical/bulk_update_request_processor.rb:37 | any two words around the arrow are matched |
| BulkUpdateRequest.FirstArrow | app/logical/bulk_update_request_processor.rb:47 | the first " -> " from a position, or none after it |
| BulkUpdateRequest.MassUpdateArgs | app/logical/bulk_update_request_processor.rb:47 | the lazy `(.+?) -> (.*)`: a non-empty query ending at the first arrow |
| BulkUpdateRequest.MassUpdateArgsComplete | app/logical/bulk_update_request_processor.rb:47 | a query without ">" and any update are split back apart |
| BulkUpdateRequest.CategoryArgs | app/logical/bulk_update_request_processor.rb:49 | a word, the arrow and a category name make up the whole rest |
| BulkUpdateRequest.ParseTag | app/logical/bulk_update_request_processor.rb:51-56 | a nuke, deprecate or undeprecate line gives its keyword's command with the word after it |
| BulkUpdateRequest.ParseLine | app/logical/bulk_update_request_processor.rb:36-59 | an invalid line keeps the line; each command kind is only produced after its keyword |
| BulkUpdateRequest.CommandFor | app/logical/bulk_update_request_processor.rb:33-59 | nil iff nothing is left after normalising, else the parse of the normalised line |
| BulkUpdateRequest.Commands | app/logical/bulk_update_request_processor.rb:31-61 | one entry per non-blank line, in order, each that line's command |
| BulkUpdateRequest.KeywordLine | app/logical/bulk_update_request_processor.rb:37-56 | a keyword in any letter case followed by a space matches, and the rest follows it |
| BulkUpdateRequest.ParsePairLine | app/logical/bulk_update_request_processor.rb:37-46 | alias, implication, unalias, unimply and rename lines, long or short spelling, give their command with both names normalised |
| BulkUpdateRequest.ParsePairSpelling | app/logical/bulk_update_request_processor.rb:37-46 | every spelling of a pair keyword reaches its own pattern first |
| BulkUpdateRequest.ParseMassUpdateLine | app/logical/bulk_update_request_processor.rb:47-48 | "mass update" and "update" keep query and update raw |
| BulkUpdateRequest.ParseUpdateKeyword | app/logical/bulk_update_request_processor.rb:47-48 | either update keyword gives the lazily split mass update |
| BulkUpdateRequest.ParseCategoryLine | app/logical/bulk_update_request_processor.rb:49-50 | a category line normalises the tag and lowercases the category |
| BulkUpdateRequest.ParseCategoryRest | app/logical/bulk_update_request_processor.rb:49-50 | whatever rest the category pattern accepts gives that category command |
| BulkUpdateRequest.ParseTagLine | app/logical/bulk_update_request_processor.rb:51-56 | nuke, deprecate and undeprecate lines give their command with the raw tag |
| BulkUpdateRequest.ParseUnknownLine | app/logical/bulk_update_request_processor.rb:57-58 | a line starting with no keyword becomes an invalid line holding it |
| BulkUpdateRequest.LineRoundTrip | app/logical/bulk_update_request_processor.rb:31-59 | the line written for an expressible command parses back to it |
| BulkUpdateRequest.ScriptRoundTrip | app/logical/bulk_update_request_processor.rb:31-61 | a script written from expressible commands parses back to the same commands |
| BulkUpdateRequest.ScriptLines | app/logical/bulk_update_request_processor.rb:32 | the non-blank lines of a written script are the command lines |
| BulkUpdateRequest.CommandDtext | app/logical/bulk_update_request_processor.rb:273-293 | a DText line for every recognised command, an error for an invalid line or nil; mass update as `{{query}} -> {{update}}`, nuke in `[[ ]]` for a simple tag and `{{ }}` otherwise, deprecate and undeprecate with their keyword, category as `[[tag]] -> category` |
| BulkUpdateRequest.PairDtextUsesKeyword | app/logical/bulk_update_request_processor.rb:276 | a pair command renders as its keyword with both names in `[[ ]]` |
| BulkUpdateRequest.PairSymbolSpelling | app/logical/bulk_update_request_processor.rb:276 | a pair's command symbol with `tr("_", " ")` applied is its script keyword |
| BulkUpdateRequest.UnderscoresToSpaces | app/logical/bulk_update_request_processor.rb:276 | every "_" becomes " ", nothing else changes |
| BulkUpdateRequest.ToDtext | app/logical/bulk_update_request_processor.rb:272-295 | succeeds iff every command is recognised |
| BulkUpdateRequest.DtextLines | app/logical/bulk_update_request_processor.rb:273-294 | one DText line per command, in order |
| BulkUpdateRequest.CommandTags | app/logical/bulk_update_request_processor.rb:244-254 | tags for every recognised command, nil for the others |
| BulkUpdateRequest.AllTags | app/logical/bulk_update_request_processor.rb:244-255 | holds exactly the tags some recognised command names |
| BulkUpdateRequest.AffectedTags | app/logical/bulk_update_request_processor.rb:243-256 | with all commands recognised, the named tags strictly sorted, each once; `[nil]` when unrecognised commands name nothing alongside; otherwise the sort error |
| BulkUpdateRequest.SortedUniq | app/logical/bulk_update_request_processor.rb:255 | `sort.uniq` is strictly increasing with the same members |
| BulkUpdateRequest.ValidateScriptLength | app/logical/bulk_update_request_processor.rb:173-178 | the error iff more than 100 commands |
| BulkUpdateRequest.ShortScriptAccepted | app/logical/bulk_update_request_processor.rb:173-178 | a script of at most 100 lines is never too long |
| BulkUpdateRequest.TagMoveAllowed | app/logical/bulk_update_request_processor.rb:324-332 | allowed iff the antecedent is an existing, non-empty artist tag under 200 posts and the consequent is missing, empty, or an artist tag under 200 posts |
| BulkUpdateRequest.RequestTagMoveAllowed | app/logical/bulk_update_request_processor.rb:259-268 | true iff every command is an alias or rename whose tag move is allowed |
| BulkUpdateRequest.OtherCommandDisallows | app/logical/bulk_update_request_processor.rb:264-265 | any other command refuses the whole request |
| Utility.Clamp | app/javascript/src/javascripts/utility.js:8-10 | at least low; within [low, high] when low ≤ high; the value itself when in range; low below, high above |
| Utility.InArray | app/javascript/src/javascripts/utility.js:71 | -1 iff absent, else the first index holding the value |
| Utility.IsSubset | app/javascript/src/javascripts/utility.js:67-77 | true iff every element of the subarray occurs in the array |
| Utility.Intersect | app/javascript/src/javascripts/utility.js:79-94 | reads the arrays only; the result is sorted and holds each value min(count in a, count in b) times |
| Utility.DropShared | app/javascript/src/javascripts/utility.js:88-90 | a shared head is in the intersection once more than in that of the tails |
| Utility.DropSmaller | app/javascript/src/javascripts/utility.js:84-87 | a head smaller than the other sorted array is in no intersection |
| Utility.RegexpEscape | app/javascript/src/javascripts/utility.js:96-98 | no shorter than the input, adding only backslashes |
| Utility.RegexpEscapeRoundTrip | app/javascript/src/javascripts/utility.js:96-98 | the escaped string matches literally exactly the original text |
| Utility.LiteralIsEscaped | app/javascript/src/javascripts/utility.js:96-98 | every literal pattern is the escape of the text it matches |
| IconHelper.Dasherize | app/helpers/icon_helper.rb:395 | every character outside `[a-z0-9.]` becomes "-" |
| IconHelper.Squeeze | app/helpers/icon_helper.rb:395 | no "--" left, no longer than the input, first and last character kept |
| IconHelper.SqueezeAppend | app/helpers/icon_helper.rb:395 | squeezing distributes over a concatenation whose seam is not inside a run of dashes, so text between runs is kept as is |
| IconHelper.SqueezeDashRun | app/helpers/icon_helper.rb:395 | a run of dashes becomes exactly one dash |
| IconHelper.SqueezeKeeps | app/helpers/icon_helper.rb:395 | only dashes are removed: the other characters stay in order and every character comes from the input |
| IconHelper.NormalizeSiteName | app/helpers/icon_helper.rb:395 | only `a-z`, `0-9`, "." and single inner "-", keeping every name character of the downcased input |
| IconHelper.SiteNameFixed | app/helpers/icon_helper.rb:395 | a canonical name normalises to itself |
| IconHelper.NormalizeSiteNameIdempotent | app/helpers/icon_helper.rb:395 | normalising twice is normalising once |
| IconHelper.Downcase | app/helpers/icon_helper.rb:395 | no contract; see DowncaseAscii |
| IconHelper.DowncaseAscii | app/helpers/icon_helper.rb:395 | on ASCII input `downcase` is the ASCII lower case |
| IconHelper.SiteIcons | app/helpers/icon_helper.rb:17-20 | keys are exactly the basenames without "-logo.png", each mapping to a basename with that key |
| IconHelper.LogoKey | app/helpers/icon_helper.rb:19 | a basename ending in `-logo.png` gives the key that, followed by `-logo.png`, is the basename; any other basename is its own key |
| IconHelper.LogoLookup | app/helpers/icon_helper.rb:17-20 | each logo file is found under its own site name |
| IconHelper.ExternalSiteIcon | app/helpers/icon_helper.rb:394-403 | a logo iff the normalised name is in the table, taken from it; otherwise the globe icon |
| IconHelper.SiteLogoShown | app/helpers/icon_helper.rb:394-403 | a name normalising to a logo's key shows that logo |
| IconHelper.OwnNameShowsLogo | app/helpers/icon_helper.rb:394-403 | a canonical logo key used as the site name shows its logo |
| IconHelper.UnknownSiteGlobe | app/helpers/icon_helper.rb:400-401 | a name no logo is filed under shows the globe |
| Common.StripRight | app/helpers/icon_helper.rb:31 | `rstrip`: a prefix, whose removed tail is all whitespace or NUL and whose last character is not |
| Common.StripLeft | app/helpers/icon_helper.rb:31 | `lstrip`: a suffix, whose removed head is all whitespace or NUL and whose first character is not |
| IconHelper.SvgClass | app/helpers/icon_helper.rb:31 | no contract; see SvgClassShape |
| IconHelper.SvgClassShape | app/helpers/icon_helper.rb:31 | starts with `icon svg-icon <name>-icon`, never ends in whitespace, is exactly that for a nil class, and adds " <class>" for a class ending in text |
| Common.EscapeHtml | app/logical/source/extractor/patreon.rb:151 | the escaped text holds no markup character and is never shorter than the input; see UnescapeEscape for the round trip |
| Common.Sort | app/logical/bulk_update_request_processor.rb:255 | the result is sorted and a permutation of the input |
| Common.DeletePrefix | app/helpers/icon_helper.rb:395 | when the text starts with the prefix, the prefix followed by the result is the text; otherwise the text is unchanged |
| Common.DeleteSuffix | app/logical/source/url/dlsite.rb:46 | when the text ends with the suffix, the result followed by the suffix is the text; otherwise the text is unchanged |
| Common.UnescapeEscape | app/logical/source/extractor/patreon.rb:103 | unescaping `CGI.escapeHTML`'s output gives the text back |

## Left out

- Network I/O (`http.*`, `parsed_get`, `http_exists?`, `image_page`, redirect following): each response is an input record of status, headers, final URL and its `url` parameter, or a function parameter; transport and caching are not modelled.
- `Source::URL.parse`, `Source::Extractor.find`, `Danbooru::URL.escape`, `Tag.normalize_name`, the tag category pattern, `PostQuery` and the tag lookup are not part of this model: they are function parameters, and the recursive re-dispatch of Tumblr and of URL shorteners goes through them.
- URL parsing (`Danbooru::URL`): URLs arrive already split into host, subdomain, domain and path segments; `Dlsite.Match` works on that split form.
- The DText and HTML layers (`DText.from_html`, `parse_html`, Nokogiri): `dtext_artist_commentary_desc`, `inline_media` and the per-element rewrites are not modelled.
- `memoize` is a cache only; memoised methods are plain functions.
- Database, jobs and locking: `validate_script`, `process!`, `process_later!`, `mass_update`, `nuke`.
- Credentials: `Tumblr.enabled?` is a boolean input.
- Patreon `display_name`, `artist_commentary_title`, `post_id` and `user_id` are field lookups in the API response and are not modelled separately; `api_response` and `http_downloader` are network code.
- Tumblr `post_url_from_image_html`, `image_page`, `image_page_json` and `inline_media` read the network or parse HTML; their results are inputs.
- `utility.js` UI code (`delay`, `meta`, `test_max_width`, `dialog`, `keydown`, `copyToClipboard`, `printPage`, `createTooltip`, `selectEnd`, `splitWords`): DOM, timers and a library call.
- `icon_helper.rb` rendering (`tag.svg`, `image_icon_tag`, `asset_pack_path`) and its one-line icon wrappers; the logo directory glob and its sort are replaced by the list of basenames as input.
- Utility.Clamp: works on integers; JavaScript numbers are floats, so NaN and fractions are not modelled.
- Utility.Intersect: compares strings by code point; JavaScript's `sort` and `<` compare UTF-16 code units, which differ only for characters outside the Basic Multilingual Plane.
- BulkUpdateRequest.KeywordLine: keywords match case-insensitively by ASCII case folding; Unicode case folding (KELVIN SIGN, LONG S) that Ruby's `/i` also applies is not modelled.
- IconHelper.NormalizeSiteName: `downcase` is modelled only as far as the replacement that follows can observe it: ASCII letters, KELVIN SIGN and LATIN CAPITAL LETTER I WITH DOT ABOVE; every other non-ASCII character becomes "-" whatever its lower case.
- BulkUpdateRequest.CommandDtext: `PostQuery.normalize(tag).is_simple_tag?` for `nuke` is a predicate parameter.
- API payload fields are taken as present and of the expected type, so the exceptions Ruby raises on a nil field are not modelled: a poll post whose poll resource is missing (`CGI.escapeHTML` of a nil question, patreon.rb:60 and 167-169), a nil choice `position` compared with integers by `sort_by` (patreon.rb:172), a nil `alt_sizes` added to an array (tumblr.rb:26) and a nil `content_raw` given to `gsub` (tumblr.rb:98). `Patreon.CommentaryDesc` takes the question as a string, `Patreon.Choice.position` is an integer, and `Tumblr.Photo` and `Tumblr.TrailItem` hold a list and a string there.
