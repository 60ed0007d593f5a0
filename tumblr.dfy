/** The Tumblr extractor, `Source::Extractor::Tumblr`, on the parts that are decided by the post record
    of the API response: the image URLs of a post, the page and profile URLs, the commentary fields,
    the tags and the linear rendering of a reblog trail. Network lookups and the dispatch to other
    extractors are inputs. */
module Tumblr {
  import opened Common

  // ---------------------------------------------------------------------------------------------
  // The post record

  datatype Size = Size(url: string, width: int, height: int)

  datatype Photo = Photo(originalSize: Size, altSizes: seq<Size>)

  /** One entry of a post's reblog trail. */
  datatype TrailItem = TrailItem(blogName: Option<string>, postId: Option<string>, contentRaw: string,
                                 isRootItem: bool, isCurrentItem: bool)

  /** The fields of the first post of the API response that the extractor reads; `{}` is the post with
      every field absent. */
  datatype Post = Post(
    kind: Option<string>,
    photos: seq<Photo>,
    videoUrl: Option<string>,
    title: Option<string>,
    body: Option<string>,
    description: Option<string>,
    caption: Option<string>,
    answer: Option<string>,
    tags: seq<string>,
    trail: seq<TrailItem>,
    askingName: Option<string>,
    question: Option<string>)

  // ---------------------------------------------------------------------------------------------
  // Image URLs

  function Area(s: Size): int
  {
    s.width * s.height
  }

  /** `sizes.max_by { width * height }`: the first size of greatest area. */
  function Biggest(sizes: seq<Size>): (r: nat)
    requires |sizes| > 0
    ensures r < |sizes|
    ensures forall j :: 0 <= j < |sizes| ==> Area(sizes[j]) <= Area(sizes[r])
    ensures forall j :: 0 <= j < r ==> Area(sizes[j]) < Area(sizes[r])
  {
    if |sizes| == 1 then 0
    else
      var b := Biggest(sizes[..|sizes| - 1]);
      assert forall j :: 0 <= j < |sizes| - 1 ==> sizes[j] == sizes[..|sizes| - 1][j];
      if Area(sizes[|sizes| - 1]) > Area(sizes[b]) then |sizes| - 1 else b
  }

  /** The URL of the biggest of a photo's sizes, the original size first. */
  function PhotoUrl(p: Photo): (url: string)
    ensures exists s :: (s in [p.originalSize] + p.altSizes && s.url == url
                         && forall t :: t in [p.originalSize] + p.altSizes ==> Area(t) <= Area(s))
  {
    var sizes := [p.originalSize] + p.altSizes;
    var b := Biggest(sizes);
    assert sizes[b] in sizes;
    sizes[b].url
  }

  /** The assets a post contributes by its type: one URL per photo, in photo order, or the video URL
      when it is not blank. */
  function PostAssets(post: Post): (r: seq<string>)
    ensures post.kind == Some("photo") ==> |r| == |post.photos|
    ensures post.kind == Some("photo") ==> forall i :: 0 <= i < |r| ==> r[i] == PhotoUrl(post.photos[i])
    ensures post.kind == Some("video") && Present(post.videoUrl) ==> r == [post.videoUrl.value]
    ensures post.kind == Some("video") && !Present(post.videoUrl) ==> r == []
    ensures post.kind != Some("photo") && post.kind != Some("video") ==> r == []
  {
    if post.kind == Some("photo") then
      seq(|post.photos|, i requires 0 <= i < |post.photos| => PhotoUrl(post.photos[i]))
    else if post.kind == Some("video") then
      if Present(post.videoUrl) then [post.videoUrl.value] else []
    else []
  }

  /** `flat_map { |url| Source::Extractor.find(url).image_urls }`, with the dispatch as a parameter. */
  function FlatMap(urls: seq<string>, imageUrlsOf: string -> seq<string>): (r: seq<string>)
    ensures urls == [] ==> r == []
  {
    if urls == [] then [] else imageUrlsOf(urls[0]) + FlatMap(urls[1..], imageUrlsOf)
  }

  lemma {:induction false} FlatMapAppend(a: seq<string>, b: seq<string>, f: string -> seq<string>)
    ensures FlatMap(a + b, f) == FlatMap(a, f) + FlatMap(b, f)
  {
    if a == [] {
      assert a + b == b;
    } else {
      assert (a + b)[0] == a[0] && (a + b)[1..] == a[1..] + b;
      FlatMapAppend(a[1..], b, f);
    }
  }

  /** What the extractor reads of the URL it was given. */
  datatype ParsedUrl = ParsedUrl(text: string, fullImageUrl: Option<string>, candidateFullImageUrls: seq<string>,
                                 isImageUrl: bool)

  /** `image_urls`.
      - A URL with a full-image form gives the image its page names (`requestedImage`), else the URL.
      - A URL with candidate full-image URLs gives the first candidate that exists, else the URL.
      - Any other image URL gives itself.
      - A post URL gives the post's own assets followed by the inline media, each expanded by the
        extractor for its site. */
  method ImageUrls(parsed: ParsedUrl, post: Post, inlineMedia: seq<string>, requestedImage: Option<string>,
                   exists_: string -> bool, imageUrlsOf: string -> seq<string>)
    returns (urls: seq<string>)
    ensures Present(parsed.fullImageUrl) ==>
      urls == [if requestedImage.Some? then requestedImage.value else parsed.text]
    ensures var c := parsed.candidateFullImageUrls;
      !Present(parsed.fullImageUrl) && c != [] ==>
        forall i :: 0 <= i < |c| && exists_(c[i]) && (forall j :: 0 <= j < i ==> !exists_(c[j])) ==> urls == [c[i]]
    ensures var c := parsed.candidateFullImageUrls;
      !Present(parsed.fullImageUrl) && c != [] && (forall i :: 0 <= i < |c| ==> !exists_(c[i])) ==>
        urls == [parsed.text]
    ensures !Present(parsed.fullImageUrl) && parsed.candidateFullImageUrls == [] && parsed.isImageUrl ==>
      urls == [parsed.text]
    ensures !Present(parsed.fullImageUrl) && parsed.candidateFullImageUrls == [] && !parsed.isImageUrl ==>
      urls == FlatMap(PostAssets(post), imageUrlsOf) + FlatMap(inlineMedia, imageUrlsOf)
  {
    if Present(parsed.fullImageUrl) {
      urls := [if requestedImage.Some? then requestedImage.value else parsed.text];
    } else if parsed.candidateFullImageUrls != [] {
      var found := FindIndex(parsed.candidateFullImageUrls, exists_);
      urls := [if found.Some? then parsed.candidateFullImageUrls[found.value] else parsed.text];
    } else if parsed.isImageUrl {
      urls := [parsed.text];
    } else {
      var assets: seq<string> := [];
      if post.kind == Some("photo") {
        assets := assets + seq(|post.photos|, i requires 0 <= i < |post.photos| => PhotoUrl(post.photos[i]));
      } else if post.kind == Some("video") {
        assets := assets + (if Present(post.videoUrl) then [post.videoUrl.value] else []);
      }
      assert assets == PostAssets(post);
      assets := assets + inlineMedia;
      FlatMapAppend(PostAssets(post), inlineMedia, imageUrlsOf);
      urls := FlatMap(assets, imageUrlsOf);
    }
  }

  // ---------------------------------------------------------------------------------------------
  // Page and profile URLs

  function ProfileUrl(username: Option<string>): (r: Option<string>)
    ensures r.Some? <==> Present(username)
    ensures r.Some? ==> StartsWith(r.value, "https://") && EndsWith(r.value, ".tumblr.com")
  {
    if Present(username) then Some("https://" + username.value + ".tumblr.com") else None
  }

  function PageUrl(username: Option<string>, workId: Option<string>): (r: Option<string>)
    ensures r.Some? <==> Present(username) && Present(workId)
  {
    if Present(username) && Present(workId) then
      Some("https://" + username.value + ".tumblr.com/post/" + workId.value)
    else None
  }

  /** The page URL of a post lies under the profile URL of its blog. */
  lemma PageUnderProfile(username: Option<string>, workId: Option<string>)
    requires PageUrl(username, workId).Some?
    ensures ProfileUrl(username).Some?
    ensures PageUrl(username, workId).value == ProfileUrl(username).value + "/post/" + workId.value
  {
  }

  /** The request `api_response` makes: the posts endpoint of the blog, asking for the work id. */
  datatype ApiRequest = ApiRequest(url: string, id: string)

  /** `api_response` asks the API only when the site is enabled and both ids are present; otherwise the
      response is `{}`, here `None`. */
  function ApiRequestFor(enabled: bool, username: Option<string>, workId: Option<string>): (r: Option<ApiRequest>)
    ensures r.Some? <==> enabled && Present(username) && Present(workId)
    ensures r.Some? ==> (r.value.id == workId.value
                         && r.value.url == "https://api.tumblr.com/v2/blog/" + username.value + "/posts")
  {
    if !enabled then None
    else if !(Present(username) && Present(workId)) then None
    else Some(ApiRequest("https://api.tumblr.com/v2/blog/" + username.value + "/posts", workId.value))
  }

  // ---------------------------------------------------------------------------------------------
  // Commentary

  /** `artist_commentary_title`: only text and link posts have one. */
  function CommentaryTitle(post: Post): (r: Option<string>)
    ensures r.Some? ==> post.kind == Some("text") || post.kind == Some("link")
    ensures post.kind == Some("text") || post.kind == Some("link") ==> r == post.title
  {
    if post.kind == Some("text") || post.kind == Some("link") then post.title else None
  }

  /** `artist_commentary_desc`: the field that holds the description for the post's type. */
  function CommentaryDesc(post: Post): (r: Option<string>)
    ensures r.Some? ==> post.kind.Some? && post.kind.value in {"text", "link", "photo", "video", "answer"}
    ensures post.kind == Some("text") ==> r == post.body
    ensures post.kind == Some("link") ==> r == post.description
    ensures post.kind == Some("photo") || post.kind == Some("video") ==> r == post.caption
    ensures post.kind == Some("answer") ==> r == post.answer
  {
    if post.kind == Some("text") then post.body
    else if post.kind == Some("link") then post.description
    else if post.kind == Some("photo") || post.kind == Some("video") then post.caption
    else if post.kind == Some("answer") then post.answer
    else None
  }

  // ---------------------------------------------------------------------------------------------
  // Tags

  function TagPair(tag: string, escape: string -> string): (string, string)
  {
    (tag, "https://tumblr.com/tagged/" + escape(tag))
  }

  /** `tags.map { |tag| [tag, "https://tumblr.com/tagged/#{escape(tag)}"] }`. */
  function TagPairs(tags: seq<string>, escape: string -> string): (pairs: seq<(string, string)>)
    ensures |pairs| == |tags| && forall i :: 0 <= i < |tags| ==> pairs[i] == TagPair(tags[i], escape)
  {
    seq(|tags|, i requires 0 <= i < |tags| => TagPair(tags[i], escape))
  }

  /** `uniq` keeps the first occurrence of each pair, in order: a repeated tag stays where it first was. */
  lemma RepeatedTagKeepsFirstPlace(post: Post, escape: string -> string, a: string, b: string)
    requires a != b && post.tags == [a, b, a]
    ensures Tags(post, escape) == [TagPair(a, escape), TagPair(b, escape)]
  {
    var pairs := TagPairs(post.tags, escape);
    assert IsFirstOfKey(pairs, Identity, 0) && IsFirstOfKey(pairs, Identity, 1);
    assert Identity(pairs[0]) == Identity(pairs[2]);
    FirstsCons(pairs, Identity, 0);
    FirstsCons(pairs, Identity, 1);
    FirstsCons(pairs, Identity, 2);
  }

  /** `tags`: each tag paired with its search URL on tumblr.com, without repeated pairs. `escape` stands
      for `Danbooru::URL.escape`. */
  function Tags(post: Post, escape: string -> string): (r: seq<(string, string)>)
    ensures forall i, j :: 0 <= i < j < |r| ==> r[i] != r[j]
    ensures forall i :: 0 <= i < |post.tags| ==> TagPair(post.tags[i], escape) in r
    ensures forall i :: 0 <= i < |r| ==> r[i].0 in post.tags && r[i].1 == "https://tumblr.com/tagged/" + escape(r[i].0)
    ensures r == FirstOfKeys(TagPairs(post.tags, escape), Identity)
  {
    var pairs := TagPairs(post.tags, escape);
    var r := Uniq(pairs);
    UniqTagPairs(post.tags, escape, pairs, r);
    r
  }

  /** Removing repeats from the tag pairs keeps a pair for every tag and adds no other pair. */
  lemma UniqTagPairs(tags: seq<string>, escape: string -> string, pairs: seq<(string, string)>,
                     r: seq<(string, string)>)
    requires |pairs| == |tags| && forall i :: 0 <= i < |tags| ==> pairs[i] == TagPair(tags[i], escape)
    requires forall i :: 0 <= i < |pairs| ==> pairs[i] in r
    requires forall i :: 0 <= i < |r| ==> r[i] in pairs
    ensures forall i :: 0 <= i < |tags| ==> TagPair(tags[i], escape) in r
    ensures forall i :: 0 <= i < |r| ==> r[i].0 in tags && r[i].1 == "https://tumblr.com/tagged/" + escape(r[i].0)
  {
    forall i | 0 <= i < |tags| ensures TagPair(tags[i], escape) in r {
      assert pairs[i] in r;
    }
    forall i | 0 <= i < |r| ensures r[i].0 in tags && r[i].1 == "https://tumblr.com/tagged/" + escape(r[i].0) {
      var k :| 0 <= k < |pairs| && pairs[k] == r[i];
      assert pairs[k] == TagPair(tags[k], escape);
    }
  }

  /** `tag.tr("-", "_")`. */
  function HyphensToUnderscores(tag: string): (r: string)
    ensures |r| == |tag|
    ensures forall i :: 0 <= i < |r| ==> r[i] == (if tag[i] == '-' then '_' else tag[i])
  {
    if tag == [] then "" else [if tag[0] == '-' then '_' else tag[0]] + HyphensToUnderscores(tag[1..])
  }

  /** `normalize_tag`: hyphens become underscores, then the base normalisation applies. */
  function NormalizeTag(tag: string, baseNormalize: string -> string): string
  {
    baseNormalize(HyphensToUnderscores(tag))
  }

  /** Tags that differ only in writing "-" or "_" normalise to the same tag. */
  lemma NormalizeTagHyphenBlind(a: string, b: string, baseNormalize: string -> string)
    requires |a| == |b|
    requires forall i :: 0 <= i < |a| ==> a[i] == b[i] || (a[i] in "-_" && b[i] in "-_")
    ensures NormalizeTag(a, baseNormalize) == NormalizeTag(b, baseNormalize)
    ensures '-' !in HyphensToUnderscores(a)
  {
    assert HyphensToUnderscores(a) == HyphensToUnderscores(b);
  }

  // ---------------------------------------------------------------------------------------------
  // The linear commentary of a reblog trail

  const Closer := "\" srcset="

  /** Where the lazy `(.*?)" srcset=` first ends in `s`: the length of the shortest start of `s` without
      a newline that is followed by `" srcset=`. */
  function AltEnd(s: string): (r: Option<nat>)
    ensures r.Some? ==> (r.value + |Closer| <= |s| && StartsWith(s[r.value..], Closer)
                         && '\n' !in s[..r.value])
    ensures r.Some? ==> forall k :: 0 <= k < r.value ==> !StartsWith(s[k..], Closer)
    ensures r.None? ==> forall k :: 0 <= k <= |s| && '\n' !in s[..k] ==> !StartsWith(s[k..], Closer)
  {
    if StartsWith(s, Closer) then Some(0)
    else if s == [] || s[0] == '\n' then
      NoCloserAtBreak(s);
      None
    else
      var u := s[1..];
      var t := AltEnd(u);
      if t.Some? then
        var n := t.value;
        assert u[n..] == s[n + 1..];
        assert s[..n + 1] == [s[0]] + u[..n];
        NoCloserShift(s, n);
        Some(n + 1)
      else
        NoCloserLine(s);
        None
  }

  /** A string that starts at a newline, or is empty, and does not start with a closer has no closer
      before its first newline. */
  lemma NoCloserAtBreak(s: string)
    requires (s == [] || s[0] == '\n') && !StartsWith(s, Closer)
    ensures forall k :: 0 <= k <= |s| && '\n' !in s[..k] ==> !StartsWith(s[k..], Closer)
  {
    forall k | 1 <= k <= |s| ensures '\n' in s[..k] {
      assert s[..k][0] == '\n';
    }
  }

  /** No closer before the first newline of `s` when none at its head and none before the first
      newline of its tail. */
  lemma NoCloserLine(s: string)
    requires s != [] && s[0] != '\n' && !StartsWith(s, Closer)
    requires forall k :: 0 <= k <= |s[1..]| && '\n' !in s[1..][..k] ==> !StartsWith(s[1..][k..], Closer)
    ensures forall k :: 0 <= k <= |s| && '\n' !in s[..k] ==> !StartsWith(s[k..], Closer)
  {
    forall k | 1 <= k <= |s| && '\n' !in s[..k] ensures !StartsWith(s[k..], Closer) {
      assert s[k..] == s[1..][k - 1..];
      assert s[1..][..k - 1] == s[..k][1..];
    }
  }

  /** No closer starts in the first `n + 1` positions of `s` when none starts at its head and none in
      the first `n` positions of its tail. */
  lemma NoCloserShift(s: string, n: nat)
    requires s != [] && n < |s| && !StartsWith(s, Closer)
    requires forall k :: 0 <= k < n ==> !StartsWith(s[1..][k..], Closer)
    ensures forall k :: 0 <= k < n + 1 ==> !StartsWith(s[k..], Closer)
  {
    forall k | 1 <= k < n + 1 ensures !StartsWith(s[k..], Closer) {
      assert s[k..] == s[1..][k - 1..];
    }
  }

  /** The substitution that escapes raw quotes inside the alt text of the trail's images:
      `gsub(/alt="(.*?)" srcset=/) { %{alt="#{$1.gsub('"', "&quot;")}" srcset=} }`. */
  function FixAlt(s: string): string
    decreases |s|
  {
    if s == [] then ""
    else if StartsWith(s, "alt=\"") && AltEnd(s[5..]).Some? then
      var k := AltEnd(s[5..]).value;
      "alt=\"" + Replace(s[5..][..k], '"', "&quot;") + Closer + FixAlt(s[5..][k + |Closer|..])
    else [s[0]] + FixAlt(s[1..])
  }

  /** Content without an `alt="` passes unchanged. */
  lemma {:induction false} FixAltPlain(s: string)
    requires !Contains(s, "alt=\"")
    ensures FixAlt(s) == s
    decreases |s|
  {
    if s != [] {
      FixAltPlain(s[1..]);
      assert s == [s[0]] + s[1..];
    }
  }

  /** The lazy match does not stop inside `alt`: no closer starts within it. */
  predicate NoCloserIn(alt: string)
  {
    forall k :: 0 <= k < |alt| ==> !StartsWith(alt[k..] + Closer, Closer)
  }

  /** One alt attribute, whose text holds no newline and whose end is the first closer, has every raw
      quote of its text escaped; the rest of the content is fixed in turn. */
  lemma FixAltAttribute(alt: string, rest: string)
    requires '\n' !in alt && NoCloserIn(alt)
    ensures FixAlt("alt=\"" + alt + Closer + rest) == "alt=\"" + Replace(alt, '"', "&quot;") + Closer + FixAlt(rest)
  {
    var s := "alt=\"" + alt + Closer + rest;
    var x := alt + Closer + rest;
    assert StartsWith(s, "alt=\"") && s[5..] == x by {
      assert s == "alt=\"" + x;
    }
    AltEndAt(alt, rest);
    FixAltOpen(s, |alt|);
    assert x[..|alt|] == alt && x[|alt| + |Closer|..] == rest;
  }

  /** One step of `FixAlt` at an `alt="` whose closer is found. */
  lemma FixAltOpen(s: string, k: nat)
    requires StartsWith(s, "alt=\"") && AltEnd(s[5..]) == Some(k)
    ensures FixAlt(s) == "alt=\"" + Replace(s[5..][..k], '"', "&quot;") + Closer + FixAlt(s[5..][k + |Closer|..])
  {
  }

  /** The lazy match over an alt text followed by a closer ends at that closer. */
  lemma AltEndAt(alt: string, rest: string)
    requires '\n' !in alt && NoCloserIn(alt)
    ensures AltEnd(alt + Closer + rest) == Some(|alt|)
  {
    var x := alt + Closer + rest;
    assert x[..|alt|] == alt;
    assert x[|alt|..] == Closer + rest;
    forall v | 0 <= v < |alt| ensures !StartsWith(x[v..], Closer) {
      assert x[v..] == (alt[v..] + Closer) + rest;
    }
  }

  /** `chomp`: removes one trailing "\r\n", "\n" or "\r". */
  function Chomp(s: string): (r: string)
    ensures EndsWith(s, "\r\n") ==> r + "\r\n" == s
    ensures !EndsWith(s, "\r\n") && EndsWith(s, "\n") ==> r + "\n" == s
    ensures !EndsWith(s, "\n") && EndsWith(s, "\r") ==> r + "\r" == s
    ensures !EndsWith(s, "\n") && !EndsWith(s, "\r") ==> r == s
  {
    if EndsWith(s, "\r\n") then s[..|s| - 2]
    else if EndsWith(s, "\n") || EndsWith(s, "\r") then s[..|s| - 1]
    else s
  }

  function TrailPostUrl(item: TrailItem): string
  {
    "https://" + Interp(item.blogName) + ".tumblr.com/post/" + Interp(item.postId)
  }

  /** The quoted question of an answer post. */
  function AskedBlock(post: Post): string
  {
    "<blockquote>\n  <p>" + Interp(post.askingName) + " asked:</p>\n\n  " + Interp(post.question) + "\n</blockquote>\n\n"
  }

  /** The opening of a block that quotes a trail item: the link to the item's post. */
  function QuoteHead(item: TrailItem): string
  {
    "<blockquote>\n  <p><a href=\"" + TrailPostUrl(item) + "\">"
  }

  /** The rest of that block, up to its closing tag: the blog name, `suffix` after the link, then the
      quoted content. */
  function QuoteTail(item: TrailItem, suffix: string, content: string): string
  {
    Interp(item.blogName) + "</a>" + suffix + ":</p>\n\n  " + content + "\n</blockquote>"
  }

  function QuoteBlock(item: TrailItem, suffix: string, content: string): string
  {
    QuoteHead(item) + QuoteTail(item, suffix, content) + "\n"
  }

  /** The block one trail item renders as. */
  function TrailBlock(post: Post, item: TrailItem): string
  {
    var content := FixAlt(item.contentRaw);
    var answer := post.kind == Some("answer");
    if item.isRootItem && item.isCurrentItem && answer then
      Chomp(AskedBlock(post) + content + "\n")
    else if item.isRootItem && !item.isCurrentItem && answer then
      Chomp(AskedBlock(post) + QuoteBlock(item, " answered", content))
    else if item.isCurrentItem then
      content
    else
      Chomp(QuoteBlock(item, "", content))
  }

  function Blocks(post: Post, trail: seq<TrailItem>): (r: seq<string>)
    ensures |r| == |trail|
    ensures forall i :: 0 <= i < |r| ==> r[i] == TrailBlock(post, trail[i])
  {
    if trail == [] then []
    else
      var rest := Blocks(post, trail[1..]);
      var r := [TrailBlock(post, trail[0])] + rest;
      assert forall i :: 1 <= i < |r| ==> r[i] == rest[i - 1] && trail[1..][i - 1] == trail[i];
      r
  }

  /** `linear_artist_commentary_desc`. */
  function LinearCommentaryDesc(post: Post): (r: Option<string>)
    ensures post.trail == [] ==> r == CommentaryDesc(post)
    ensures post.trail != [] ==> r == Some(Concat(Blocks(post, post.trail)))
  {
    if post.trail == [] then CommentaryDesc(post) else Some(Concat(Blocks(post, post.trail)))
  }

  /** The blocks of a trail are laid out one after another: the rendering of a trail split in two is
      the rendering of the first part followed by that of the second. */
  lemma {:induction false} LinearSplits(post: Post, a: seq<TrailItem>, b: seq<TrailItem>)
    ensures Concat(Blocks(post, a + b)) == Concat(Blocks(post, a)) + Concat(Blocks(post, b))
  {
    BlocksAppend(post, a, b);
    ConcatAppend(Blocks(post, a), Blocks(post, b));
  }

  lemma {:induction false} BlocksAppend(post: Post, a: seq<TrailItem>, b: seq<TrailItem>)
    ensures Blocks(post, a + b) == Blocks(post, a) + Blocks(post, b)
  {
    if a == [] {
      assert a + b == b;
    } else {
      assert (a + b)[0] == a[0] && (a + b)[1..] == a[1..] + b;
      BlocksAppend(post, a[1..], b);
    }
  }

  /** The current item, unless it is the root of an answer post, is its content as it is. */
  lemma CurrentItemVerbatim(post: Post, item: TrailItem)
    requires item.isCurrentItem && !(item.isRootItem && post.kind == Some("answer"))
    ensures TrailBlock(post, item) == FixAlt(item.contentRaw)
    ensures !Contains(item.contentRaw, "alt=\"") ==> TrailBlock(post, item) == item.contentRaw
  {
    if !Contains(item.contentRaw, "alt=\"") {
      FixAltPlain(item.contentRaw);
    }
  }

  lemma ChompClosed(x: string)
    requires EndsWith(x, "\n</blockquote>")
    ensures Chomp(x + "\n") == x
  {
    var y := x + "\n";
    assert y[|y| - 2] == x[|x| - 1] == '>';
    assert y[..|y| - 1] == x;
  }

  lemma EndsWithExtends(h: string, t: string, l: string)
    requires EndsWith(t, l)
    ensures EndsWith(h + t, l)
  {
    assert (h + t)[|h + t| - |l|..] == t[|t| - |l|..];
  }

  /** Any other item that is not the root of an answer post is a blockquote that links its blog. */
  lemma EarlierItemQuoted(post: Post, item: TrailItem)
    requires !item.isCurrentItem && !(item.isRootItem && post.kind == Some("answer"))
    ensures StartsWith(TrailBlock(post, item), QuoteHead(item))
    ensures StartsWith(QuoteHead(item), "<blockquote>\n  <p><a href=\"" + TrailPostUrl(item))
    ensures EndsWith(TrailBlock(post, item), "\n</blockquote>")
  {
    var content := FixAlt(item.contentRaw);
    var h, t := QuoteHead(item), QuoteTail(item, "", content);
    EndsWithExtends(h, t, "\n</blockquote>");
    ChompClosed(h + t);
    assert TrailBlock(post, item) == h + t;
    assert (h + t)[..|h|] == h;
  }
}
