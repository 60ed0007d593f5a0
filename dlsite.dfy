/** The DLSite URL classifier, `Source::URL::Dlsite`: which URLs belong to DLSite, the ordered rules that
    pick the category, work type and product, circle or author id out of a URL, and the canonical page and
    profile URLs rebuilt from those fields. */
module Dlsite {
  import opened Common

  /** A URL as the generic URL parser hands it to a site classifier: the full host, the host split into
      subdomain (nil when there is none) and registrable domain, and the path split into segments. */
  datatype Url = Url(host: string, subdomain: Option<string>, domain: string, pathSegments: seq<string>)

  /** The attributes `parse` fills in. All of them nil is the unmatched classification. */
  datatype Fields = Fields(
    category: Option<string>,
    workType: Option<string>,
    productId: Option<string>,
    makerId: Option<string>,
    authorId: Option<string>)

  const Unmatched := Fields(None, None, None, None, None)

  const Origin := "https://www.dlsite.com/"

  /** `match?`: DLSite owns the three domains, except the Ci-en host, which has a classifier of its own. */
  predicate Match(u: Url)
  {
    u.domain in {"dlsite.com", "dlsite.net", "dlsite.jp"} && u.host != "ci-en.dlsite.com"
  }

  // ---------------------------------------------------------------------------------------------
  // The leading `[A-Z]+\d+` of an image file name

  predicate IsUpper(c: char) { 'A' <= c <= 'Z' }

  predicate IsDigit(c: char) { '0' <= c <= '9' }

  /** `s[..m]` consists of capital letters up to position `k` and digits from there on, both parts
      non-empty: it is a match of `[A-Z]+\d+` at the start of `s`. */
  predicate ProductIdAt(s: string, k: int, m: int)
  {
    0 < k < m <= |s|
    && (forall i :: 0 <= i < k ==> IsUpper(s[i]))
    && (forall i :: k <= i < m ==> IsDigit(s[i]))
  }

  /** The capture of `/^([A-Z]+\d+)/`: the capital run at the start of `s` and the digit run after
      it, or nil when either is empty. It is a prefix of `s`. */
  function LeadingProductId(s: string): (r: Option<string>)
    ensures r.Some? ==> |r.value| <= |s| && r.value == s[..|r.value|]
  {
    var u := Run(s, IsUpper);
    var d := Run(s[u..], IsDigit);
    if u > 0 && d > 0 then Some(s[..u + d]) else None
  }

  /** The capture is a match of `[A-Z]+\d+` at the start of `s` that no further digit extends, and
      there is none exactly when `s` has no such match. */
  lemma LeadingProductIdMatches(s: string)
    ensures var r := LeadingProductId(s);
      && (r.Some? ==> exists k :: ProductIdAt(s, k, |r.value|))
      && (r.Some? && |r.value| < |s| ==> !IsDigit(s[|r.value|]))
      && (r.None? ==> forall k, m :: !ProductIdAt(s, k, m))
  {
    var u := Run(s, IsUpper);
    var d := Run(s[u..], IsDigit);
    if u > 0 && d > 0 {
      assert LeadingProductId(s) == Some(s[..u + d]);
      forall i | u <= i < u + d ensures IsDigit(s[i]) {
        assert s[i] == s[u..][i - u];
      }
      assert ProductIdAt(s, u, u + d);
      if u + d < |s| {
        assert s[u + d] == s[u..][d];
      }
    } else {
      assert LeadingProductId(s) == None;
      forall k, m ensures !ProductIdAt(s, k, m) {
        if ProductIdAt(s, k, m) {
          ProductIdAtRuns(s, k, m);
        }
      }
    }
  }

  /** Any match of the shape starts exactly at the capital run and has a non-empty digit run after it. */
  lemma ProductIdAtRuns(s: string, k: int, m: int)
    requires ProductIdAt(s, k, m)
    ensures Run(s, IsUpper) == k && Run(s[k..], IsDigit) > 0
  {
    RunExact(s, IsUpper, k);
    assert s[k..][0] == s[k];
  }

  // ---------------------------------------------------------------------------------------------
  // parse

  /** `parse`: the rules tried in order over (subdomain, domain, path segments); the first that matches
      fills the fields, and a URL no rule matches leaves every field nil. */
  function Parse(u: Url): (f: Fields)
    ensures f.workType.Some? ==> f.workType.value == "work" || f.workType.value == "announce"
    ensures f.workType.Some? <==> f.productId.Some?
    ensures f.makerId.Some? ==> f.productId.None? && f.authorId.None? && f.category.Some?
    ensures f.authorId.Some? ==> f.productId.None? && f.makerId.None? && f.category.Some?
    ensures u.domain != "dlsite.com" && u.domain != "dlsite.jp" ==> f == Unmatched
  {
    var s := u.pathSegments;
    var imageHost := u.subdomain == Some("img") && u.domain == "dlsite.jp"
      && |s| == 6 && s[0] == "modpub" && s[1] == "images2";
    // https://img.dlsite.jp/modpub/images2/work/doujin/RJ01183000/RJ01182574_img_main.jpg
    if imageHost && (s[2] == "work" || s[2] == "ana") && s[3] == "doujin" && LeadingProductId(s[5]).Some? then
      Fields(None, Some(if s[2] == "ana" then "announce" else "work"), LeadingProductId(s[5]), None, None)
    // https://img.dlsite.jp/modpub/images2/parts_ana/RJ01030000/RJ01029765/33415f94d0cf83d85f39624dac1e3724.jpg
    else if imageHost && Contains(s[2], "parts") then
      Fields(None, Some(if Contains(s[2], "ana") then "announce" else "work"), Some(s[4]), None, None)
    // https://www.dlsite.com/maniax/announce/=/product_id/RJ01137148.html
    else if u.domain == "dlsite.com" && |s| == 5 && (s[1] == "work" || s[1] == "announce")
      && s[2] == "=" && s[3] == "product_id" then
      Fields(Some(s[0]), Some(s[1]), Some(DeleteSuffix(s[4], ".html")), None, None)
    // https://eng.dlsite.com/work/=/product_id/RE022725.html
    else if u.domain == "dlsite.com" && |s| == 4 && s[0] == "work" && s[1] == "=" && s[2] == "product_id" then
      Fields(Some("maniax"), Some("work"), Some(DeleteSuffix(s[3], ".html")), None, None)
    // https://www.dlsite.com/home/circle/profile/=/maker_id/RG64308.html
    else if u.domain == "dlsite.com" && |s| == 6 && s[1] == "circle" && s[2] == "profile" && s[3] == "="
      && s[4] == "maker_id" then
      Fields(Some(s[0]), None, None, Some(DeleteSuffix(s[5], ".html")), None)
    // https://www.dlsite.com/books/author/=/author_id/AJ010529
    else if u.domain == "dlsite.com" && |s| == 5 && s[1] == "author" && s[2] == "=" && s[3] == "author_id" then
      Fields(Some(s[0]), None, None, None, Some(s[4]))
    else
      Unmatched
  }

  // ---------------------------------------------------------------------------------------------
  // page_url and profile_url

  /** `page_url`: the work page on www.dlsite.com, under the parsed category or under "maniax" when no
      category was parsed; nil unless both a work type and a product id are present. */
  function PageUrl(f: Fields): (r: Option<string>)
    ensures r.Some? <==> Present(f.workType) && Present(f.productId)
    ensures r.Some? ==> StartsWith(r.value, Origin) && EndsWith(r.value, ".html")
    ensures r.Some? && Present(f.category) ==> StartsWith(r.value, Origin + f.category.value + "/")
    ensures r.Some? && !Present(f.category) ==> StartsWith(r.value, Origin + "maniax/")
  {
    if Present(f.category) && Present(f.workType) && Present(f.productId) then
      Some(Origin + f.category.value + "/" + f.workType.value + "/=/product_id/" + f.productId.value + ".html")
    else if Present(f.workType) && Present(f.productId) then
      Some(Origin + "maniax" + "/" + f.workType.value + "/=/product_id/" + f.productId.value + ".html")
    else
      None
  }

  /** `profile_url`: a circle always links to its profile under "maniax", with ".html", whatever category
      it was found under; otherwise an author always links to the "books" author page, without ".html". */
  function ProfileUrl(f: Fields): (r: Option<string>)
    ensures r.None? <==> !Present(f.makerId) && !Present(f.authorId)
    ensures Present(f.makerId) ==>
      r == Some(Origin + "maniax/circle/profile/=/maker_id/" + f.makerId.value + ".html")
    ensures !Present(f.makerId) && Present(f.authorId) ==>
      r == Some(Origin + "books/author/=/author_id/" + f.authorId.value)
  {
    if Present(f.makerId) then
      Some(Origin + "maniax/circle/profile/=/maker_id/" + f.makerId.value + ".html")
    else if Present(f.authorId) then
      Some(Origin + "books/author/=/author_id/" + f.authorId.value)
    else
      None
  }

  // ---------------------------------------------------------------------------------------------
  // Properties of the rules

  /** Blog and other hosts on dlsite.net are DLSite URLs, but no rule matches them: they have neither a
      page URL nor a profile URL. */
  lemma NetDomainUnmatched(u: Url)
    requires u.domain == "dlsite.net"
    ensures Parse(u) == Unmatched && PageUrl(Parse(u)) == None && ProfileUrl(Parse(u)) == None
  {
  }

  /** The Ci-en host is on dlsite.com but is not a DLSite URL. */
  lemma CiEnNotMatched(u: Url)
    requires u.host == "ci-en.dlsite.com"
    ensures !Match(u)
  {
  }

  /** The image-host rule for `work` and `ana` files: the product id is the leading `[A-Z]+\d+` of the
      file name, and the work is an announcement exactly when the directory is "ana". */
  lemma ImageWorkRule(u: Url)
    requires u.subdomain == Some("img") && u.domain == "dlsite.jp"
    requires |u.pathSegments| == 6 && u.pathSegments[..2] == ["modpub", "images2"]
    requires u.pathSegments[2] in {"work", "ana"} && u.pathSegments[3] == "doujin"
    requires LeadingProductId(u.pathSegments[5]).Some?
    ensures Parse(u).productId == LeadingProductId(u.pathSegments[5])
    ensures Parse(u).workType == Some("announce") <==> u.pathSegments[2] == "ana"
    ensures Parse(u).workType == Some("work") <==> u.pathSegments[2] == "work"
    ensures Parse(u).category.None?
  {
    assert u.pathSegments[0] == "modpub" && u.pathSegments[1] == "images2";
  }

  /** The image-host rule for `parts` directories: the product id is the second segment after the parts
      directory, and the work is an announcement exactly when the directory name contains "ana". */
  lemma ImagePartsRule(u: Url)
    requires u.subdomain == Some("img") && u.domain == "dlsite.jp"
    requires |u.pathSegments| == 6 && u.pathSegments[..2] == ["modpub", "images2"]
    requires Contains(u.pathSegments[2], "parts")
    ensures Parse(u).productId == Some(u.pathSegments[4])
    ensures Parse(u).workType == Some("announce") <==> Contains(u.pathSegments[2], "ana")
    ensures Parse(u).workType == Some("work") <==> !Contains(u.pathSegments[2], "ana")
    ensures Parse(u).category.None?
  {
    assert u.pathSegments[0] == "modpub" && u.pathSegments[1] == "images2";
    PartsIsNotWork(u.pathSegments[2]);
  }

  lemma PartsIsNotWork(s: string)
    requires Contains(s, "parts")
    ensures s != "work" && s != "ana"
  {
    assert |s| >= 5;
  }

  /** Two strings with the same capital run, the same digit run after it and the same characters
      up to the end of both runs have the same leading `[A-Z]+\d+`. */
  lemma SameRunsSameProductId(s: string, t: string, u: nat, d: nat)
    requires u == Run(s, IsUpper) == Run(t, IsUpper)
    requires d == Run(s[u..], IsDigit) == Run(t[u..], IsDigit)
    requires u + d <= |s| && u + d <= |t| && s[..u + d] == t[..u + d]
    ensures LeadingProductId(s) == LeadingProductId(t)
  {
    if u > 0 && d > 0 {
      assert LeadingProductId(s) == Some(s[..u + d]);
      assert LeadingProductId(t) == Some(t[..u + d]);
    } else {
      assert LeadingProductId(s) == None && LeadingProductId(t) == None;
    }
  }

  /** Appending ".html" to a file name does not change its leading `[A-Z]+\d+`. */
  lemma LeadingProductIdIgnoresHtml(s: string)
    ensures LeadingProductId(s + ".html") == LeadingProductId(s)
  {
    var u, d := HtmlKeepsRuns(s);
    SameRunsSameProductId(s, s + ".html", u, d);
  }

  /** The capital run and the digit run after it stop before an appended ".html". */
  lemma HtmlKeepsRuns(s: string) returns (u: nat, d: nat)
    ensures u == Run(s, IsUpper) == Run(s + ".html", IsUpper)
    ensures d == Run(s[u..], IsDigit) == Run((s + ".html")[u..], IsDigit)
    ensures u + d <= |s| && s[..u + d] == (s + ".html")[..u + d]
  {
    var t := s + ".html";
    u := Run(s, IsUpper);
    RunAppend(s, ".html", IsUpper);
    var rest := s[u..];
    assert t[u..] == rest + ".html";
    RunAppend(rest, ".html", IsDigit);
    d := Run(rest, IsDigit);
    assert t[..u + d] == s[..u + d];
  }

  /** A trailing ".html" on the last segment is ignored by every rule except the author rule: with or
      without it the parsed fields, and so the page and profile URLs, are the same. */
  lemma HtmlSuffixIgnored(u: Url, v: Url, prefix: seq<string>, id: string)
    requires u.host == v.host && u.subdomain == v.subdomain && u.domain == v.domain
    requires u.pathSegments == prefix + [id] && v.pathSegments == prefix + [id + ".html"]
    requires !EndsWith(id, ".html")
    ensures Parse(u).authorId.None? ==> Parse(v) == Parse(u)
    ensures PageUrl(Parse(u)) == PageUrl(Parse(v))
  {
    assert DeleteSuffix(id + ".html", ".html") == id;
    if |prefix| == 5 {
      HtmlSuffixIgnored6(u, v, prefix, id);
    } else if |prefix| == 4 {
      HtmlSuffixIgnored5(u, v, prefix, id);
    } else if |prefix| == 3 {
      HtmlSuffixIgnored4(u, v, prefix, id);
    }
  }

  /** Six segments: the image rules and the circle rule, none of which keeps the ".html". */
  lemma HtmlSuffixIgnored6(u: Url, v: Url, prefix: seq<string>, id: string)
    requires u.host == v.host && u.subdomain == v.subdomain && u.domain == v.domain
    requires u.pathSegments == prefix + [id] && v.pathSegments == prefix + [id + ".html"]
    requires !EndsWith(id, ".html") && |prefix| == 5
    ensures Parse(v) == Parse(u)
  {
    if u.subdomain == Some("img") && u.domain == "dlsite.jp" {
      HtmlSuffixIgnoredImage(u, v, prefix, id);
    } else {
      HtmlSuffixIgnoredCircle(u, v, prefix, id);
    }
  }

  /** On the image host the file name only contributes its leading `[A-Z]+\d+`. */
  lemma HtmlSuffixIgnoredImage(u: Url, v: Url, prefix: seq<string>, id: string)
    requires u.subdomain == v.subdomain == Some("img") && u.domain == v.domain == "dlsite.jp"
    requires u.pathSegments == prefix + [id] && v.pathSegments == prefix + [id + ".html"]
    requires |prefix| == 5
    ensures Parse(v) == Parse(u)
  {
    var s, t := u.pathSegments, v.pathSegments;
    assert |s| == 6 && |t| == 6 && s[5] == id && t[5] == id + ".html";
    assert s[0] == t[0] && s[1] == t[1] && s[2] == t[2] && s[3] == t[3] && s[4] == t[4];
    LeadingProductIdIgnoresHtml(id);
  }

  /** Elsewhere the only six-segment rule is the circle rule, which drops the ".html". */
  lemma HtmlSuffixIgnoredCircle(u: Url, v: Url, prefix: seq<string>, id: string)
    requires u.subdomain == v.subdomain && u.domain == v.domain
    requires !(u.subdomain == Some("img") && u.domain == "dlsite.jp")
    requires u.pathSegments == prefix + [id] && v.pathSegments == prefix + [id + ".html"]
    requires !EndsWith(id, ".html") && |prefix| == 5
    ensures Parse(v) == Parse(u)
  {
    var s, t := u.pathSegments, v.pathSegments;
    assert |s| == 6 && |t| == 6 && s[5] == id && t[5] == id + ".html";
    assert s[0] == t[0] && s[1] == t[1] && s[2] == t[2] && s[3] == t[3] && s[4] == t[4];
    assert DeleteSuffix(id + ".html", ".html") == id;
  }

  /** Five segments. */
  lemma HtmlSuffixIgnored5(u: Url, v: Url, prefix: seq<string>, id: string)
    requires u.host == v.host && u.subdomain == v.subdomain && u.domain == v.domain
    requires u.pathSegments == prefix + [id] && v.pathSegments == prefix + [id + ".html"]
    requires !EndsWith(id, ".html") && |prefix| == 4
    ensures Parse(u).authorId.None? ==> Parse(v) == Parse(u)
    ensures PageUrl(Parse(u)) == PageUrl(Parse(v))
  {
    var s, t := u.pathSegments, v.pathSegments;
    assert DeleteSuffix(id + ".html", ".html") == id;
    assert s[4] == id && t[4] == id + ".html";
    assert s[0] == t[0] && s[1] == t[1] && s[2] == t[2] && s[3] == t[3];
  }

  /** Four segments. */
  lemma HtmlSuffixIgnored4(u: Url, v: Url, prefix: seq<string>, id: string)
    requires u.host == v.host && u.subdomain == v.subdomain && u.domain == v.domain
    requires u.pathSegments == prefix + [id] && v.pathSegments == prefix + [id + ".html"]
    requires !EndsWith(id, ".html") && |prefix| == 3
    ensures Parse(u).authorId.None? ==> Parse(v) == Parse(u)
    ensures PageUrl(Parse(u)) == PageUrl(Parse(v))
  {
    var s, t := u.pathSegments, v.pathSegments;
    assert DeleteSuffix(id + ".html", ".html") == id;
    assert s[3] == id && t[3] == id + ".html";
    assert s[0] == t[0] && s[1] == t[1] && s[2] == t[2];
  }

  /** An author id keeps its ".html": the two spellings give different author pages. */
  lemma AuthorIdKeepsHtml(u: Url, v: Url, prefix: seq<string>, id: string)
    requires u.domain == v.domain == "dlsite.com"
    requires |prefix| == 4 && prefix[1..] == ["author", "=", "author_id"]
    requires u.pathSegments == prefix + [id] && v.pathSegments == prefix + [id + ".html"]
    requires Present(Some(id))
    ensures Parse(u).authorId == Some(id) && Parse(v).authorId == Some(id + ".html")
    ensures ProfileUrl(Parse(u)) != ProfileUrl(Parse(v))
  {
    assert u.pathSegments[1] == "author" && v.pathSegments[1] == "author";
    var a := Origin + "books/author/=/author_id/";
    assert !IsSpace(id[0]) || exists i :: 0 <= i < |id| && !IsSpace(id[i]);
    assert Present(Some(id + ".html")) by {
      var i :| 0 <= i < |id| && !IsSpace(id[i]);
      assert (id + ".html")[i] == id[i];
    }
    assert |a + id| != |a + id + ".html"|;
  }

  // ---------------------------------------------------------------------------------------------
  // The canonical page URL is a fixpoint

  /** The canonical page URL of `f`, as the URL parser splits it. */
  function CanonicalPage(f: Fields): (u: Url)
    requires Present(f.workType) && Present(f.productId)
    ensures u.host == "www.dlsite.com"
    ensures PageUrl(f) == Some(Origin + Join(u.pathSegments, "/"))
  {
    var category := if Present(f.category) then f.category.value else "maniax";
    var workType, pid := f.workType.value, f.productId.value;
    JoinPagePath(category, workType, pid);
    PageUrlShape(f, category);
    var u := Url("www.dlsite.com", Some("www"), "dlsite.com", [category, workType, "=", "product_id", pid + ".html"]);
    u
  }

  lemma JoinPagePath(category: string, workType: string, pid: string)
    ensures Join([category, workType, "=", "product_id", pid + ".html"], "/")
      == category + "/" + (workType + "/=/product_id/" + (pid + ".html"))
  {
    var s := [category, workType, "=", "product_id", pid + ".html"];
    assert s[1..][1..][1..][1..] == [pid + ".html"];
    assert Join(s[1..][1..][1..], "/") == "product_id/" + (pid + ".html");
    assert Join(s[1..][1..], "/") == "=/product_id/" + (pid + ".html");
  }

  lemma PageUrlShape(f: Fields, category: string)
    requires Present(f.workType) && Present(f.productId)
    requires category == if Present(f.category) then f.category.value else "maniax"
    ensures PageUrl(f) == Some(Origin + (category + "/" + (f.workType.value + "/=/product_id/"
      + (f.productId.value + ".html"))))
  {
    var workType, pid := f.workType.value, f.productId.value;
    calc {
      Origin + category + "/" + workType + "/=/product_id/" + pid + ".html";
      Origin + category + "/" + workType + "/=/product_id/" + (pid + ".html");
      Origin + category + "/" + (workType + "/=/product_id/" + (pid + ".html"));
      Origin + (category + "/" + (workType + "/=/product_id/" + (pid + ".html")));
    }
  }

  /** Parsing the canonical page URL of any parsed URL gives back the identical page URL. */
  lemma PageUrlFixpoint(u: Url)
    requires PageUrl(Parse(u)).Some?
    ensures PageUrl(Parse(CanonicalPage(Parse(u)))) == PageUrl(Parse(u))
  {
    var f := Parse(u);
    var c := CanonicalPage(f);
    assert DeleteSuffix(f.productId.value + ".html", ".html") == f.productId.value;
    var g := Parse(c);
    assert g.category == Some(if Present(f.category) then f.category.value else "maniax");
    assert Present(Some("maniax")) by {
      assert !IsSpace("maniax"[0]);
    }
  }

  // ---------------------------------------------------------------------------------------------
  // Examples from the classifier's test suite

  lemma ImageWorkExample(u: Url, file: string)
    requires u.subdomain == Some("img") && u.domain == "dlsite.jp"
    requires u.pathSegments == ["modpub", "images2", "work", "doujin", "RJ01183000", file]
    requires file == "RJ01182574_img_main.jpg"
    ensures Parse(u) == Fields(None, Some("work"), Some("RJ01182574"), None, None)
  {
    LeadingProductIdExample(file);
    ImageWorkRule(u);
  }

  lemma LeadingProductIdExample(file: string)
    requires file == "RJ01182574_img_main.jpg"
    ensures LeadingProductId(file) == Some("RJ01182574")
  {
    RunExact(file, IsUpper, 2);
    SliceExample(file);
    DigitRunExample(file[2..]);
  }

  lemma SliceExample(file: string)
    requires file == "RJ01182574_img_main.jpg"
    ensures file[2..] == "01182574_img_main.jpg" && file[..10] == "RJ01182574"
  {
  }

  lemma DigitRunExample(s: string)
    requires s == "01182574_img_main.jpg"
    ensures Run(s, IsDigit) == 8
  {
    RunExact(s, IsDigit, 8);
  }

  lemma ImagePartsExample(u: Url)
    requires u == Url("img.dlsite.jp", Some("img"), "dlsite.jp",
      ["modpub", "images2", "parts_ana", "RJ01030000", "RJ01029765", "33415f94d0cf83d85f39624dac1e3724.jpg"])
    ensures Parse(u) == Fields(None, Some("announce"), Some("RJ01029765"), None, None)
  {
    PartsAnaDirectory(u.pathSegments[2]);
    assert u.pathSegments[..2] == ["modpub", "images2"];
    ImagePartsRule(u);
  }

  lemma PartsAnaDirectory(dir: string)
    requires dir == "parts_ana"
    ensures Contains(dir, "parts") && Contains(dir, "ana")
  {
    assert dir[..5] == "parts";
    assert dir[6..9] == "ana";
    ContainsAt(dir, "ana", 6);
  }

  lemma EnglishWorkExample(u: Url)
    requires u == Url("eng.dlsite.com", Some("eng"), "dlsite.com", ["work", "=", "product_id", "RE022725.html"])
    ensures Parse(u) == Fields(Some("maniax"), Some("work"), Some("RE022725"), None, None)
  {
    assert DeleteSuffix(u.pathSegments[3], ".html") == "RE022725";
  }

  lemma MakerProfileExample(u: Url)
    requires u == Url("www.dlsite.com", Some("www"), "dlsite.com",
      ["maniax-touch", "circle", "profile", "=", "maker_id", "RG64022.html"])
    ensures Parse(u) == Fields(Some("maniax-touch"), None, None, Some("RG64022"), None)
  {
    assert DeleteSuffix(u.pathSegments[5], ".html") == "RG64022";
  }

  lemma AuthorProfileExample(u: Url)
    requires u == Url("www.dlsite.com", Some("www"), "dlsite.com", ["comic", "author", "=", "author_id", "AJ010529"])
    ensures Parse(u) == Fields(Some("comic"), None, None, None, Some("AJ010529"))
  {
  }
}
