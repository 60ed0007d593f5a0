/** The Patreon extractor, `Source::Extractor::Patreon`, on the parts that only transform the API response:
    rendering a post's rich-text document to HTML, choosing image URLs among the post's media, the
    profile URLs, the tag list and the order of poll choices. The API response is an input value. */
module Patreon {
  import opened Common

  // ---------------------------------------------------------------------------------------------
  // The rich-text document

  /** A mark on a rich-text node: its `type` and, for links, `attrs.href`. */
  datatype Mark = Mark(kind: Option<string>, href: Option<string>)

  /** A value of the rich-text JSON document.
      - `List` is a JSON array.
      - `Object` is a JSON object read as a node: its `type`, its `content`, `text.to_s`,
        `attrs.level.to_i`, `attrs.src`, `attrs.href` and `marks.to_a`. A missing `content` is nil,
        which is `Scalar("")`.
      - `Scalar` is any other JSON value (string, number, boolean, nil), by its `to_s`. */
  datatype Node =
    | List(items: seq<Node>)
    | Object(kind: Option<string>, content: Node, text: string, level: int,
             src: Option<string>, href: Option<string>, marks: seq<Mark>)
    | Scalar(repr: string)

  /** Turns every "<br>" back into a newline; the inverse of `gsub("\n", "<br>")` on text without '<'. */
  function UnbreakLines(s: string): string
    decreases |s|
  {
    if s == [] then ""
    else if StartsWith(s, "<br>") then "\n" + UnbreakLines(s[4..])
    else [s[0]] + UnbreakLines(s[1..])
  }

  /** The HTML of a text node: the text escaped, then each newline turned into a line break. */
  function TextHtml(text: string): (r: string)
    ensures '\n' !in r
    ensures UnescapeHtml(UnbreakLines(r)) == text
  {
    TextRoundTrip(text);
    Replace(EscapeHtml(text), '\n', "<br>")
  }

  /** Text without '<' passes through `UnbreakLines` unchanged, whatever follows it. */
  lemma {:induction false} UnbreakPlain(p: string, rest: string)
    requires '<' !in p
    ensures UnbreakLines(p + rest) == p + UnbreakLines(rest)
  {
    if p == [] {
      assert p + rest == rest;
    } else {
      var t := p + rest;
      assert t[0] == p[0] && t[0] != '<';
      assert !StartsWith(t, "<br>");
      assert t[1..] == p[1..] + rest;
      UnbreakPlain(p[1..], rest);
      assert p == [p[0]] + p[1..];
    }
  }

  lemma {:induction false} TextRoundTrip(text: string)
    ensures UnescapeHtml(UnbreakLines(Replace(EscapeHtml(text), '\n', "<br>"))) == text
  {
    if text != [] {
      var c, tail := text[0], text[1..];
      var rest := Replace(EscapeHtml(tail), '\n', "<br>");
      assert EscapeHtml(text) == EscapeChar(c) + EscapeHtml(tail);
      ReplaceAppend(EscapeChar(c), EscapeHtml(tail), '\n', "<br>");
      TextRoundTrip(tail);
      CharRoundTrip(c, rest);
      assert text == [c] + tail;
    }
  }

  /** One character of the text, escaped and with its newline broken, decodes back to itself. */
  lemma CharRoundTrip(c: char, rest: string)
    ensures UnescapeHtml(UnbreakLines(Replace(EscapeChar(c), '\n', "<br>") + rest)) == [c] + UnescapeHtml(UnbreakLines(rest))
  {
    if c == '\n' {
      assert Replace(EscapeChar(c), '\n', "<br>") == "<br>";
      var t := "<br>" + rest;
      assert t[..4] == "<br>" && t[4..] == rest;
      assert UnbreakLines(t) == "\n" + UnbreakLines(rest);
      UnescapeEscapeChar('\n', UnbreakLines(rest));
    } else {
      var piece := EscapeChar(c);
      assert '\n' !in piece && '<' !in piece;
      ReplaceAbsent(piece, '\n', "<br>");
      UnbreakPlain(piece, rest);
      UnescapeEscapeChar(c, UnbreakLines(rest));
    }
  }

  /** The heading level `to_i.clamp(1, 6)`. */
  function HeadingLevel(level: int): (l: int)
    ensures 1 <= l <= 6
    ensures 1 <= level <= 6 ==> l == level
    ensures level < 1 ==> l == 1
    ensures level > 6 ==> l == 6
  {
    if level < 1 then 1 else if level > 6 then 6 else level
  }

  /** The decimal digit of a heading level, as string interpolation writes it. */
  function LevelDigit(l: int): string
    requires 1 <= l <= 6
  {
    [('0' as int + l) as char]
  }

  /** The HTML of an object node before its marks, given the HTML of its children. */
  function NodeHtml(n: Node, children: string): string
    requires n.Object?
  {
    var kind := n.kind;
    if kind == Some("doc") then children
    else if kind == Some("text") then TextHtml(n.text)
    else if kind == Some("paragraph") then "<p>" + children + "</p>"
    else if kind == Some("hardBreak") then "<br>"
    else if kind == Some("heading") then
      var d := LevelDigit(HeadingLevel(n.level));
      "<h" + d + ">" + children + "</h" + d + ">"
    else if kind == Some("bulletList") then "<ul>" + children + "</ul>"
    else if kind == Some("orderedList") then "<ol>" + children + "</ol>"
    else if kind == Some("listItem") then "<li>" + children + "</li>"
    else if kind == Some("blockquote") then "<blockquote>" + children + "</blockquote>"
    else if kind == Some("image") then
      if Present(n.src) then "<img src=\"" + EscapeHtml(n.src.value) + "\">" else ""
    else if kind == Some("link") then
      if Present(n.href) then "<a href=\"" + EscapeHtml(n.href.value) + "\">" + children + "</a>" else children
    else children
  }

  const KnownKinds: set<string> := {"doc", "text", "paragraph", "hardBreak", "heading", "bulletList",
    "orderedList", "listItem", "blockquote", "image", "link"}

  /** The tag a mark opens, or "" for a mark that leaves its body unchanged. */
  function MarkOpen(m: Mark): string
  {
    if m.kind == Some("bold") then "<strong>"
    else if m.kind == Some("italic") then "<em>"
    else if m.kind == Some("underline") then "<u>"
    else if m.kind == Some("strike") then "<s>"
    else if m.kind == Some("code") then "<code>"
    else if m.kind == Some("link") && Present(m.href) then "<a href=\"" + EscapeHtml(m.href.value) + "\">"
    else ""
  }

  /** The tag a mark closes, or "" for a mark that leaves its body unchanged. */
  function MarkClose(m: Mark): (r: string)
    ensures r == "" <==> MarkOpen(m) == ""
  {
    if m.kind == Some("bold") then "</strong>"
    else if m.kind == Some("italic") then "</em>"
    else if m.kind == Some("underline") then "</u>"
    else if m.kind == Some("strike") then "</s>"
    else if m.kind == Some("code") then "</code>"
    else if m.kind == Some("link") && Present(m.href) then "</a>"
    else ""
  }

  /** One step of the `reduce` over a node's marks. */
  function ApplyMark(body: string, m: Mark): (r: string)
    ensures r == MarkOpen(m) + body + MarkClose(m)
  {
    var kind := m.kind;
    if kind == Some("bold") then "<strong>" + body + "</strong>"
    else if kind == Some("italic") then "<em>" + body + "</em>"
    else if kind == Some("underline") then "<u>" + body + "</u>"
    else if kind == Some("strike") then "<s>" + body + "</s>"
    else if kind == Some("code") then "<code>" + body + "</code>"
    else if kind == Some("link") then
      if Present(m.href) then "<a href=\"" + EscapeHtml(m.href.value) + "\">" + body + "</a>" else body
    else
      assert MarkOpen(m) == "" && MarkClose(m) == "";
      body
  }

  /** `marks.reduce(html) { |body, mark| ... }`: a left fold. */
  function ApplyMarks(body: string, marks: seq<Mark>): string
    decreases marks
  {
    if marks == [] then body else ApplyMarks(ApplyMark(body, marks[0]), marks[1..])
  }

  /** The opening tags of all marks, outermost (last mark) first. */
  function Openers(marks: seq<Mark>): string
  {
    if marks == [] then "" else Openers(marks[1..]) + MarkOpen(marks[0])
  }

  /** The closing tags of all marks, innermost (first mark) first. */
  function Closers(marks: seq<Mark>): string
  {
    if marks == [] then "" else MarkClose(marks[0]) + Closers(marks[1..])
  }

  function Render(n: Node): string
  {
    match n
    case List(items) => RenderAll(items)
    case Object(_, content, _, _, _, _, marks) => ApplyMarks(NodeHtml(n, Render(content)), marks)
    case Scalar(repr) => EscapeHtml(repr)
  }

  /** `node.map { |child| rich_text_to_html(child) }.join`. */
  function RenderAll(items: seq<Node>): string
  {
    if items == [] then "" else Render(items[0]) + RenderAll(items[1..])
  }

  // ---------------------------------------------------------------------------------------------
  // Properties of the renderer

  /** The marks nest: the first mark is innermost and the last outermost. */
  lemma {:induction false} MarksNest(body: string, marks: seq<Mark>)
    ensures ApplyMarks(body, marks) == Openers(marks) + body + Closers(marks)
    decreases marks
  {
    if marks != [] {
      var m := marks[0];
      var o, c, outer, closing := MarkOpen(m), MarkClose(m), Openers(marks[1..]), Closers(marks[1..]);
      assert ApplyMarks(body, marks) == ApplyMarks(o + body + c, marks[1..]);
      MarksNest(o + body + c, marks[1..]);
      Wrap(outer, o, body, c, closing);
    }
  }

  /** Folding over two lists of marks is folding over the first, then over the second. */
  lemma {:induction false} MarksAppend(body: string, m1: seq<Mark>, m2: seq<Mark>)
    ensures ApplyMarks(body, m1 + m2) == ApplyMarks(ApplyMarks(body, m1), m2)
    decreases m1
  {
    if m1 == [] {
      assert m1 + m2 == m2;
    } else {
      assert (m1 + m2)[0] == m1[0] && (m1 + m2)[1..] == m1[1..] + m2;
      MarksAppend(ApplyMark(body, m1[0]), m1[1..], m2);
    }
  }

  /** Marks of an unknown type, and link marks with a blank href, leave the body unchanged. */
  lemma {:induction false} InertMarks(body: string, marks: seq<Mark>)
    requires forall i :: 0 <= i < |marks| ==> MarkOpen(marks[i]) == ""
    ensures ApplyMarks(body, marks) == body
    decreases marks
  {
    if marks != [] {
      assert ApplyMark(body, marks[0]) == body;
      InertMarks(body, marks[1..]);
    }
  }

  /** An array renders as its items' renderings, concatenated in order. */
  lemma {:induction false} RenderAllAppend(a: seq<Node>, b: seq<Node>)
    ensures RenderAll(a + b) == RenderAll(a) + RenderAll(b)
  {
    if a == [] {
      assert a + b == b;
    } else {
      assert (a + b)[0] == a[0] && (a + b)[1..] == a[1..] + b;
      RenderAllAppend(a[1..], b);
    }
  }

  /** A scalar renders as its escaped text: no markup character, and nothing lost. */
  lemma RenderScalar(repr: string)
    ensures forall i :: 0 <= i < |Render(Scalar(repr))| ==> !IsMarkupChar(Render(Scalar(repr))[i])
    ensures UnescapeHtml(Render(Scalar(repr))) == repr
  {
    UnescapeEscape(repr);
  }

  /** A text node renders as its escaped text with line breaks for newlines, inside its marks. */
  lemma RenderText(n: Node)
    requires n.Object? && n.kind == Some("text")
    ensures Render(n) == Openers(n.marks) + TextHtml(n.text) + Closers(n.marks)
    ensures n.marks == [] ==> '\n' !in Render(n) && UnescapeHtml(UnbreakLines(Render(n))) == n.text
  {
    MarksNest(TextHtml(n.text), n.marks);
  }

  predicate HeadingRendering(n: Node, l: int)
    requires n.Object?
  {
    1 <= l <= 6 && (1 <= n.level <= 6 ==> l == n.level)
    && Render(n) == Openers(n.marks) + ("<h" + LevelDigit(l) + ">" + Render(n.content) + "</h" + LevelDigit(l) + ">")
       + Closers(n.marks)
  }

  /** A heading opens and closes with the same level, the stored level clamped into 1..6. */
  lemma RenderHeading(n: Node)
    requires n.Object? && n.kind == Some("heading")
    ensures exists l :: HeadingRendering(n, l)
  {
    var l := HeadingLevel(n.level);
    var inner := "<h" + LevelDigit(l) + ">" + Render(n.content) + "</h" + LevelDigit(l) + ">";
    MarksNest(inner, n.marks);
    assert HeadingRendering(n, l);
  }

  /** An image node with a blank `src` renders nothing of its own, only its marks' tags. */
  lemma RenderImageWithoutSource(n: Node)
    requires n.Object? && n.kind == Some("image") && !Present(n.src)
    ensures Render(n) == Openers(n.marks) + Closers(n.marks)
    ensures n.marks == [] ==> Render(n) == ""
  {
    var children := Render(n.content);
    ImageWithoutSourceHtml(n, children);
    MarksOnEmpty(n.marks);
  }

  /** Marks around an empty body leave just their own tags. */
  lemma MarksOnEmpty(marks: seq<Mark>)
    ensures ApplyMarks("", marks) == Openers(marks) + Closers(marks)
  {
    var e: string := [];
    MarksNest(e, marks);
    var o, c := Openers(marks), Closers(marks);
    assert o + e == o;
  }

  lemma ImageWithoutSourceHtml(n: Node, children: string)
    requires n.Object? && n.kind == Some("image") && !Present(n.src)
    ensures NodeHtml(n, children) == ""
  {
  }

  /** A link node with a blank `href`, and a node of a type the renderer does not know, render their
      children only (inside their marks). */
  lemma RenderChildrenOnly(n: Node)
    requires n.Object?
    requires (n.kind == Some("link") && !Present(n.href)) || n.kind == Some("doc")
      || (n.kind.Some? && n.kind.value !in KnownKinds) || n.kind.None?
    ensures Render(n) == Openers(n.marks) + Render(n.content) + Closers(n.marks)
  {
    var children := Render(n.content);
    ChildrenOnlyHtml(n, children);
    MarksNest(children, n.marks);
  }

  lemma ChildrenOnlyHtml(n: Node, children: string)
    requires n.Object?
    requires (n.kind == Some("link") && !Present(n.href)) || n.kind == Some("doc")
      || (n.kind.Some? && n.kind.value !in KnownKinds) || n.kind.None?
    ensures NodeHtml(n, children) == children
  {
  }

  // ---------------------------------------------------------------------------------------------
  // Media and image URLs

  datatype Dimensions = Dimensions(w: int, h: int)

  /** A media record of the API response: the four fields that identify the file, and `display.url`. */
  datatype Media = Media(fileName: Option<string>, dimensions: Option<Dimensions>, sizeBytes: Option<int>,
                         mimetype: Option<string>, displayUrl: Option<string>)

  datatype MediaKey = MediaKey(fileName: Option<string>, dimensions: Option<Dimensions>, sizeBytes: Option<int>,
                               mimetype: Option<string>)

  /** `values_at("file_name", "dimensions", "size_bytes", "mimetype")`. */
  function KeyOf(m: Media): MediaKey
  {
    MediaKey(m.fileName, m.dimensions, m.sizeBytes, m.mimetype)
  }

  /** `pluck("display").pluck("url").compact`. */
  function DisplayUrls(media: seq<Media>): seq<string>
  {
    if media == [] then []
    else if media[0].displayUrl.Some? then [media[0].displayUrl.value] + DisplayUrls(media[1..])
    else DisplayUrls(media[1..])
  }

  lemma {:induction false} DisplayUrlsMember(media: seq<Media>, url: string)
    ensures url in DisplayUrls(media) <==> exists m :: m in media && m.displayUrl == Some(url)
  {
    if media != [] {
      DisplayUrlsMember(media[1..], url);
      if exists m :: m in media && m.displayUrl == Some(url) {
        var m :| m in media && m.displayUrl == Some(url);
        if m != media[0] {
          assert m in media[1..];
        }
      }
    }
  }

  lemma {:induction false} DisplayUrlsSubseq(r: seq<Media>, xs: seq<Media>)
    requires IsSubseq(r, xs)
    ensures IsSubseq(DisplayUrls(r), DisplayUrls(xs))
    decreases |xs|
  {
    if xs != [] {
      if r != [] && r[0] == xs[0] && IsSubseq(r[1..], xs[1..]) {
        DisplayUrlsSubseq(r[1..], xs[1..]);
        if xs[0].displayUrl.Some? {
          var u := DisplayUrls(r);
          assert u[0] == DisplayUrls(xs)[0] && u[1..] == DisplayUrls(r[1..]);
        }
      } else {
        DisplayUrlsSubseq(r, xs[1..]);
      }
    }
  }

  /** `image_urls_from_api`: the display URLs of the first media record for each identifying key, in
      the order of the media list. A URL is listed exactly when it is the display URL of a record that
      is the first with its key. */
  function ImageUrlsFromApi(media: seq<Media>): (r: seq<string>)
    ensures IsSubseq(r, DisplayUrls(media))
    ensures forall url :: url in r <==>
      exists m :: m in media && m.displayUrl == Some(url) && FirstWithKey(media, KeyOf, KeyOf(m)) == Some(m)
    ensures r == DisplayUrls(FirstOfKeys(media, KeyOf))
  {
    var unique := UniqBy(media, KeyOf);
    DisplayUrlsSubseq(unique, media);
    forall url ensures url in DisplayUrls(unique) <==>
      exists m :: m in media && m.displayUrl == Some(url) && FirstWithKey(media, KeyOf, KeyOf(m)) == Some(m)
    {
      DisplayUrlsMember(unique, url);
      if exists m :: m in media && m.displayUrl == Some(url) && FirstWithKey(media, KeyOf, KeyOf(m)) == Some(m) {
        var m :| m in media && m.displayUrl == Some(url) && FirstWithKey(media, KeyOf, KeyOf(m)) == Some(m);
        UniqueHoldsFirst(media, unique, m);
      }
    }
    DisplayUrls(unique)
  }

  /** Two records that differ in their key both survive `uniq`, even with the same display URL: the URL
      is listed twice. */
  lemma SameDisplayUrlTwice(a: Media, b: Media, url: string)
    requires KeyOf(a) != KeyOf(b) && a.displayUrl == Some(url) && b.displayUrl == Some(url)
    ensures ImageUrlsFromApi([a, b]) == [url, url]
  {
    var xs := [a, b];
    assert IsFirstOfKey(xs, KeyOf, 0) && IsFirstOfKey(xs, KeyOf, 1);
    FirstsCons(xs, KeyOf, 0);
    FirstsCons(xs, KeyOf, 1);
    assert FirstOfKeys(xs, KeyOf) == [a, b];
    assert DisplayUrls([b]) == [url];
  }

  /** The first record with a key is among the de-duplicated records. */
  lemma UniqueHoldsFirst(media: seq<Media>, unique: seq<Media>, m: Media)
    requires unique == UniqBy(media, KeyOf)
    requires m in media && FirstWithKey(media, KeyOf, KeyOf(m)) == Some(m)
    ensures m in unique
  {
    var i :| 0 <= i < |media| && media[i] == m;
    KeySetMember(media, KeyOf, KeyOf(m));
    KeySetMember(unique, KeyOf, KeyOf(m));
    var j :| 0 <= j < |unique| && KeyOf(unique[j]) == KeyOf(m);
    assert FirstWithKey(media, KeyOf, KeyOf(unique[j])) == Some(unique[j]);
  }

  /** What the extractor needs of the URL it was given: whether it is an image URL, its text and its
      media hash. `mediaHashOf` stands for parsing another URL and reading its media hash. */
  datatype ParsedUrl = ParsedUrl(isImageUrl: bool, text: string, mediaHash: Option<string>)

  /** `image_url_from_api`: nil without a media hash; otherwise the first API URL with the same media
      hash, if any. */
  function ImageUrlFromApi(parsed: ParsedUrl, apiUrls: seq<string>, mediaHashOf: string -> Option<string>)
    : (r: Option<string>)
    ensures !Present(parsed.mediaHash) ==> r.None?
    ensures r.Some? ==> (exists i :: 0 <= i < |apiUrls| && apiUrls[i] == r.value
                          && mediaHashOf(apiUrls[i]) == parsed.mediaHash
                          && forall j :: 0 <= j < i ==> mediaHashOf(apiUrls[j]) != parsed.mediaHash)
    ensures Present(parsed.mediaHash) && r.None? ==>
      forall j :: 0 <= j < |apiUrls| ==> mediaHashOf(apiUrls[j]) != parsed.mediaHash
  {
    if !Present(parsed.mediaHash) then None
    else
      var i := FindIndex(apiUrls, url => mediaHashOf(url) == parsed.mediaHash);
      if i.Some? then Some(apiUrls[i.value]) else None
  }

  /** `image_urls`: for an image URL, exactly one URL, the full-size URL from the API when one matches
      and the given URL otherwise; for any other URL, the API list. */
  function ImageUrls(parsed: ParsedUrl, media: seq<Media>, mediaHashOf: string -> Option<string>)
    : (r: seq<string>)
    ensures parsed.isImageUrl ==> |r| == 1
    ensures parsed.isImageUrl ==>
      (r[0] == parsed.text || (r[0] in ImageUrlsFromApi(media) && mediaHashOf(r[0]) == parsed.mediaHash))
    ensures parsed.isImageUrl && r[0] != parsed.text ==> Present(parsed.mediaHash)
    ensures !parsed.isImageUrl ==> r == ImageUrlsFromApi(media)
    ensures var m := ImageUrlFromApi(parsed, ImageUrlsFromApi(media), mediaHashOf);
      parsed.isImageUrl && Present(m) ==> r == [m.value]
    ensures var m := ImageUrlFromApi(parsed, ImageUrlsFromApi(media), mediaHashOf);
      parsed.isImageUrl && !Present(m) ==> r == [parsed.text]
  {
    var fromApi := ImageUrlFromApi(parsed, ImageUrlsFromApi(media), mediaHashOf);
    if parsed.isImageUrl && Present(fromApi) then [fromApi.value]
    else if parsed.isImageUrl then [parsed.text]
    else ImageUrlsFromApi(media)
  }

  // ---------------------------------------------------------------------------------------------
  // Profile URLs and tags

  /** `profile_urls`: the vanity URL, then the numeric-id URL, each only when its part is present. */
  function ProfileUrls(username: Option<string>, userId: Option<string>): (r: seq<string>)
    ensures |r| == (if Present(username) then 1 else 0) + (if Present(userId) then 1 else 0)
    ensures Present(username) ==> r[0] == "https://www.patreon.com/" + username.value
    ensures Present(userId) ==> r[|r| - 1] == "https://www.patreon.com/user?u=" + userId.value
  {
    (if Present(username) then ["https://www.patreon.com/" + username.value] else [])
    + (if Present(userId) then ["https://www.patreon.com/user?u=" + userId.value] else [])
  }

  /** A resource of the API response's `included` list, by its `type`. */
  datatype Resource =
    | PostTag(value: string)
    | MediaResource(media: Media)
    | PollChoice(textContent: Option<string>, position: int)
    | OtherResource(kind: string)

  function TagValues(included: seq<Resource>): seq<string>
  {
    if included == [] then []
    else if included[0].PostTag? then [included[0].value] + TagValues(included[1..])
    else TagValues(included[1..])
  }

  /** `tags`: each post tag, in order, paired with the artist's tag search URL. `escape` stands for
      `Danbooru::URL.escape`; a missing profile URL interpolates as "". */
  function Tags(included: seq<Resource>, profileUrl: Option<string>, escape: string -> string)
    : (r: seq<(string, string)>)
    ensures |r| == |TagValues(included)|
    ensures forall i :: 0 <= i < |r| ==>
      r[i].0 == TagValues(included)[i] && r[i].1 == Interp(profileUrl) + "/posts?filters[tag]=" + escape(r[i].0)
  {
    var values := TagValues(included);
    seq(|values|, i requires 0 <= i < |values| => (values[i], Interp(profileUrl) + "/posts?filters[tag]=" + escape(values[i])))
  }

  // ---------------------------------------------------------------------------------------------
  // Poll choices

  datatype Choice = Choice(textContent: Option<string>, position: int)

  function ChoicesOf(included: seq<Resource>): seq<Choice>
  {
    if included == [] then []
    else if included[0].PollChoice? then
      [Choice(included[0].textContent, included[0].position)] + ChoicesOf(included[1..])
    else ChoicesOf(included[1..])
  }

  predicate ByPosition(cs: seq<Choice>)
  {
    forall i, j :: 0 <= i < j < |cs| ==> cs[i].position <= cs[j].position
  }

  function InsertChoice(c: Choice, cs: seq<Choice>): (r: seq<Choice>)
    requires ByPosition(cs)
    ensures ByPosition(r)
    ensures multiset(r) == multiset(cs) + multiset{c}
    ensures r[0] == c || (cs != [] && r[0] == cs[0])
  {
    if cs == [] then [c]
    else if c.position <= cs[0].position then
      ConsByPosition(c, cs);
      assert multiset([c] + cs) == multiset{c} + multiset(cs);
      [c] + cs
    else
      var tail := InsertChoice(c, cs[1..]);
      assert cs == [cs[0]] + cs[1..];
      ConsByPosition(cs[0], tail);
      [cs[0]] + tail
  }

  /** A choice placed before a list whose first choice does not come earlier keeps it ordered. */
  lemma ConsByPosition(c: Choice, cs: seq<Choice>)
    requires ByPosition(cs) && (cs != [] ==> c.position <= cs[0].position)
    ensures ByPosition([c] + cs)
  {
    var r := [c] + cs;
    forall i, j | 0 <= i < j < |r| ensures r[i].position <= r[j].position {
      if i == 0 {
        assert r[j] == cs[j - 1];
      } else {
        assert r[i] == cs[i - 1] && r[j] == cs[j - 1];
      }
    }
  }

  /** `poll_choices`: the poll-choice resources ordered by position. */
  function PollChoices(included: seq<Resource>): (r: seq<Choice>)
    ensures ByPosition(r)
    ensures multiset(r) == multiset(ChoicesOf(included))
  {
    SortChoices(ChoicesOf(included))
  }

  function SortChoices(cs: seq<Choice>): (r: seq<Choice>)
    ensures ByPosition(r)
    ensures multiset(r) == multiset(cs)
  {
    if cs == [] then []
    else
      assert cs == [cs[0]] + cs[1..];
      InsertChoice(cs[0], SortChoices(cs[1..]))
  }

  /** A text built from four parts starts with the first and ends with the last. */
  lemma Framed(a: string, b: string, c: string, d: string)
    ensures StartsWith(a + b + c + d, a) && EndsWith(a + b + c + d, d)
  {
    var r := a + b + c + d;
    assert r[..|a|] == a;
    assert r[|r| - |d|..] == d;
  }

  /** `artist_commentary_desc`: for a poll, the content followed by the question and the choices in
      position order as a list; for any other post, the content. */
  function CommentaryDesc(isPoll: bool, contentHtml: string, question: string, included: seq<Resource>)
    : (r: string)
    ensures !isPoll ==> r == contentHtml
    ensures isPoll ==> StartsWith(r, contentHtml + "\n\n<h6>Poll: " + EscapeHtml(question) + "</h6>\n\n<ul>\n")
    ensures isPoll ==> EndsWith(r, "\n</ul>\n")
    ensures isPoll ==> r == contentHtml + "\n\n<h6>Poll: " + EscapeHtml(question) + "</h6>\n\n<ul>\n" + "  "
                            + Join(ChoiceItems(PollChoices(included)), "\n") + "\n</ul>\n"
  {
    if isPoll then
      var head := contentHtml + "\n\n<h6>Poll: " + EscapeHtml(question) + "</h6>\n\n<ul>\n";
      var items := Join(ChoiceItems(PollChoices(included)), "\n");
      Framed(head, "  ", items, "\n</ul>\n");
      head + "  " + items + "\n</ul>\n"
    else contentHtml
  }

  /** One list item per choice, in order: the choice's text (empty when nil), escaped; reading the
      entities back gives the text. */
  function ChoiceItems(choices: seq<Choice>): (items: seq<string>)
    ensures |items| == |choices|
    ensures forall i :: 0 <= i < |items| ==>
      items[i] == "<li>" + EscapeHtml(Interp(choices[i].textContent)) + "</li>"
    ensures forall i :: 0 <= i < |items| ==>
      |items[i]| >= 9 && UnescapeHtml(items[i][4..|items[i]| - 5]) == Interp(choices[i].textContent)
  {
    if choices == [] then []
    else
      var text := Interp(choices[0].textContent);
      var item := "<li>" + EscapeHtml(text) + "</li>";
      assert item[4..|item| - 5] == EscapeHtml(text);
      UnescapeEscape(text);
      [item] + ChoiceItems(choices[1..])
  }
}
