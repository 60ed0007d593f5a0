/** The URL-shortener extractor, `Source::Extractor::URLShortener`: which request each shortener's URL
    is probed with, how the response to that request is turned into the destination URL, how deep a
    chain of shorteners is followed, and what the extractor reports when there is nothing to delegate
    to. The HTTP exchange itself is an input: a `Response` record stands for what the client returned. */
module UrlShortener {
  import opened Common

  // ---------------------------------------------------------------------------------------------
  // Requests and responses

  /** How the client is asked to fetch a URL: following redirects to the end (`http.redirect_url`,
      optionally with the GET method and a curl user agent), or once without following (`no_follow`). */
  datatype Request =
    | Follow(url: string, useGet: bool, curlAgent: bool)
    | NoFollowHead(url: string)
    | NoFollowGet(url: string)

  /** What the client returned. A `NoFollow…` request yields `status` and `headers`; a `Follow` request
      yields the URL it ended on (`finalUrl`, nil when it did not end anywhere) and, for hoyo.link, the
      `url` query parameter of that final URL. */
  datatype Response = Response(status: int, headers: map<string, string>, finalUrl: Option<string>,
                               finalUrlParam: Option<string>)

  /** `response.status.redirect?`: a 3xx status. */
  predicate IsRedirect(status: int)
  {
    300 <= status <= 399
  }

  function Header(r: Response, name: string): (v: Option<string>)
    ensures v.Some? <==> name in r.headers
    ensures v.Some? ==> v.value == r.headers[name]
  {
    if name in r.headers then Some(r.headers[name]) else None
  }

  // ---------------------------------------------------------------------------------------------
  // The decision table

  /** The branch of `redirect_url` that a URL falls in, by its domain and path segments; `id` is the
      single path segment where the branch requires exactly one. */
  datatype Rule =
    | AmznAsia
    | AmznTo
    | HoyoLink
    | NaverMe(id: string)
    | PinIt(id: string)
    | PostyPe
    | SkfbLy(id: string)
    | ReurlCc
    | ShortUrlAt(id: string)
    | XhsLink
    | TCn
    | TCo(id: string)
    | CurlAgent
    | Fallback

  function RuleFor(domain: string, pathSegments: seq<string>): (r: Rule)
    ensures domain == "amzn.asia" ==> r == AmznAsia
    ensures domain != "amzn.asia" && |pathSegments| != 1 ==> r == Fallback
    ensures r.Fallback? && |pathSegments| == 1 ==>
      domain !in {"amzn.asia", "amzn.to", "hoyo.link", "naver.me", "pin.it", "posty.pe", "skfb.ly", "reurl.cc",
                  "shorturl.at", "xhslink.com", "t.cn", "twitter.com", "x.com", "t.co", "bit.ly", "j.mp", "pse.is"}
  {
    if domain == "amzn.asia" then AmznAsia
    else if |pathSegments| != 1 then Fallback
    else
      var id := pathSegments[0];
      if domain == "amzn.to" then AmznTo
      else if domain == "hoyo.link" then HoyoLink
      else if domain == "naver.me" then NaverMe(id)
      else if domain == "pin.it" then PinIt(id)
      else if domain == "posty.pe" then PostyPe
      else if domain == "skfb.ly" then SkfbLy(id)
      else if domain == "reurl.cc" then ReurlCc
      else if domain == "shorturl.at" then ShortUrlAt(id)
      else if domain == "xhslink.com" then XhsLink
      else if domain == "t.cn" then TCn
      else if domain == "twitter.com" || domain == "x.com" || domain == "t.co" then TCo(id)
      else if domain == "bit.ly" || domain == "j.mp" || domain == "pse.is" then CurlAgent
      else Fallback
  }

  const HoyoTransit := "https://bbs-api-os.hoyolab.com/community/misc/api/transit?q="
  const Hoyo404 := "https://webstatic.hoyoverse.com/short_link/404_v2.html"

  /** The request `redirect_url` makes for a URL. `httpsUrl` is the URL's host and path on https, and `q`
      its `q` query parameter. */
  function ProbeFor(rule: Rule, httpsUrl: string, q: Option<string>): (req: Request)
    ensures rule.Fallback? || rule.AmznTo? ==> req == NoFollowHead(httpsUrl)
    ensures rule.HoyoLink? && Present(q) ==> req == Follow(HoyoTransit + q.value, true, false)
    ensures rule.PinIt? ==> req == NoFollowHead("https://api.pinterest.com/url_shortener/" + rule.id + "/redirect/")
    ensures req.Follow? && req.curlAgent <==> rule.TCo? || rule.CurlAgent?
  {
    match rule
    case AmznAsia => Follow(httpsUrl, true, false)
    case AmznTo => NoFollowHead(httpsUrl)
    case HoyoLink => if Present(q) then Follow(HoyoTransit + q.value, true, false) else Follow(httpsUrl, true, false)
    case NaverMe(id) => NoFollowGet("https://naver.me/" + id)
    case PinIt(id) => NoFollowHead("https://api.pinterest.com/url_shortener/" + id + "/redirect/")
    case PostyPe => Follow(httpsUrl, false, false)
    case SkfbLy(id) => Follow("https://sketchfab.com/s/" + id, false, false)
    case ReurlCc => NoFollowGet(httpsUrl)
    case ShortUrlAt(id) => Follow("https://www.shorturl.at/" + id, false, false)
    case XhsLink => Follow(httpsUrl, false, false)
    case TCn => NoFollowGet(httpsUrl)
    case TCo(id) => Follow("https://t.co/" + id, false, true)
    case CurlAgent => Follow(httpsUrl, false, true)
    case Fallback => NoFollowHead(httpsUrl)
  }

  /** `url unless url.in?(sentinels)`. */
  function Unless(url: Option<string>, sentinels: set<string>): (r: Option<string>)
    ensures r.Some? <==> url.Some? && url.value !in sentinels
    ensures r.Some? ==> r == url
  {
    if url.Some? && url.value in sentinels then None else url
  }

  /** The `Location` header of a redirect response, nil for any other status. */
  function RedirectLocation(resp: Response): Option<string>
  {
    if IsRedirect(resp.status) then Header(resp, "Location") else None
  }

  /** The destination `redirect_url` reads off the response to the request `ProbeFor` made. */
  function Destination(rule: Rule, q: Option<string>, resp: Response): (dest: Option<string>)
    // amzn.to: `Location` on 301 only
    ensures rule.AmznTo? ==> (dest.Some? <==> resp.status == 301 && "Location" in resp.headers)
    // hoyo.link: the transit URL's `url` parameter, else the transit URL; without `q`, not the 404 page
    ensures rule.HoyoLink? && Present(q) ==> dest == Or(resp.finalUrlParam, resp.finalUrl)
    // reurl.cc: `Target` on 200 only
    ensures rule.ReurlCc? ==> (dest.Some? <==> resp.status == 200 && "Target" in resp.headers)
    // t.cn: `Location` on 200..399 only, never the error page
    ensures rule.TCn? && dest.Some? ==> 200 <= resp.status <= 399
    // any other domain: `Location` of a redirect, unless it is relative
    ensures rule.Fallback? || rule.NaverMe? || rule.PinIt? ==> (dest.Some? ==> IsRedirect(resp.status))
    ensures rule.Fallback? ==> (dest.Some? <==> IsRedirect(resp.status) && "Location" in resp.headers
                                                && !StartsWith(resp.headers["Location"], "/"))
    // whatever is read from a header is that header's value
    ensures rule.AmznTo? || rule.NaverMe? || rule.PinIt? || rule.TCn? || rule.Fallback? ==>
      (dest.Some? ==> "Location" in resp.headers && dest.value == resp.headers["Location"])
    ensures rule.ReurlCc? && dest.Some? ==> dest.value == resp.headers["Target"]
  {
    match rule
    case AmznAsia => resp.finalUrl
    case AmznTo => if resp.status == 301 then Header(resp, "Location") else None
    case HoyoLink =>
      if Present(q) then Or(resp.finalUrlParam, resp.finalUrl) else Unless(resp.finalUrl, {Hoyo404})
    case NaverMe(_) => RedirectLocation(resp)
    case PinIt(id) =>
      Unless(RedirectLocation(resp),
             {"https://api.pinterest.com/url_shortener/" + id + "/redirect/None", "https://www.pinterest.com"})
    case PostyPe => Unless(resp.finalUrl, {"https://www.postype.com", "https://www.postype.com/404"})
    case SkfbLy(_) => resp.finalUrl
    case ReurlCc => if resp.status == 200 then Header(resp, "Target") else None
    case ShortUrlAt(_) => Unless(resp.finalUrl, {"https://www.shorturl.at/"})
    case XhsLink => Unless(resp.finalUrl, {"http://www.xiaohongshu.com"})
    case TCn =>
      Unless(if 200 <= resp.status <= 399 then Header(resp, "Location") else None, {"http://weibo.com/sorry"})
    case TCo(_) => resp.finalUrl
    case CurlAgent => resp.finalUrl
    case Fallback =>
      var url := RedirectLocation(resp);
      if url.Some? && StartsWith(url.value, "/") then None else url
  }

  /** The domains read through a header of the first response resolve exactly when that response is a
      redirect (or, for t.cn, any 2xx or 3xx) carrying a `Location` that is not the domain's error page. */
  lemma LocationRulesResolve(rule: Rule, q: Option<string>, resp: Response)
    ensures var dest := Destination(rule, q, resp);
      // naver.me: `Location` of any redirect
      && (rule.NaverMe? ==> (dest.Some? <==> IsRedirect(resp.status) && "Location" in resp.headers))
      // pin.it: `Location` of a redirect, unless it is one of the two error pages
      && (rule.PinIt? ==>
            (dest.Some? <==> IsRedirect(resp.status) && "Location" in resp.headers
                             && resp.headers["Location"] != "https://api.pinterest.com/url_shortener/" + rule.id + "/redirect/None"
                             && resp.headers["Location"] != "https://www.pinterest.com"))
      // t.cn: `Location` of any 2xx or 3xx response, unless it is the error page
      && (rule.TCn? ==>
            (dest.Some? <==> 200 <= resp.status <= 399 && "Location" in resp.headers
                             && resp.headers["Location"] != "http://weibo.com/sorry"))
  {
  }

  /** The domains read through the URL the client ended on resolve exactly when there is one and it is
      not the domain's error page; that URL is then the destination. */
  lemma FollowedRulesResolve(rule: Rule, q: Option<string>, resp: Response)
    ensures var dest := Destination(rule, q, resp);
      // amzn.asia, skfb.ly, twitter.com/x.com/t.co, bit.ly/j.mp/pse.is: no error page
      && (rule.AmznAsia? || rule.SkfbLy? || rule.TCo? || rule.CurlAgent? ==> dest == resp.finalUrl)
      && (rule.HoyoLink? && !Present(q) ==> (dest.Some? <==> resp.finalUrl.Some? && resp.finalUrl.value != Hoyo404))
      && (rule.PostyPe? ==>
            (dest.Some? <==> resp.finalUrl.Some? && resp.finalUrl.value != "https://www.postype.com"
                             && resp.finalUrl.value != "https://www.postype.com/404"))
      && (rule.ShortUrlAt? ==>
            (dest.Some? <==> resp.finalUrl.Some? && resp.finalUrl.value != "https://www.shorturl.at/"))
      && (rule.XhsLink? ==>
            (dest.Some? <==> resp.finalUrl.Some? && resp.finalUrl.value != "http://www.xiaohongshu.com"))
      && ((rule.HoyoLink? && !Present(q)) || rule.PostyPe? || rule.ShortUrlAt? || rule.XhsLink? ==>
            (dest.Some? ==> dest == resp.finalUrl))
  {
  }

  /** The sentinel URLs that stand for "no such link" are never a destination. */
  lemma SentinelsRejected(rule: Rule, q: Option<string>, resp: Response)
    ensures var dest := Destination(rule, q, resp);
      && (rule.HoyoLink? && !Present(q) ==> dest != Some(Hoyo404))
      && (rule.PinIt? ==> dest != Some("https://api.pinterest.com/url_shortener/" + rule.id + "/redirect/None")
                          && dest != Some("https://www.pinterest.com"))
      && (rule.PostyPe? ==> dest != Some("https://www.postype.com") && dest != Some("https://www.postype.com/404"))
      && (rule.ShortUrlAt? ==> dest != Some("https://www.shorturl.at/"))
      && (rule.XhsLink? ==> dest != Some("http://www.xiaohongshu.com"))
      && (rule.TCn? ==> dest != Some("http://weibo.com/sorry"))
  {
  }

  /** `redirect_url`: the rule chosen by the URL, the request it makes, and the destination read off the
      response; `fetch` stands for the HTTP client. */
  function RedirectUrl(domain: string, pathSegments: seq<string>, httpsUrl: string, q: Option<string>,
                       fetch: Request -> Response): (r: Option<string>)
    ensures var resp := fetch(ProbeFor(RuleFor(domain, pathSegments), httpsUrl, q));
      r.Some? ==> r.value in resp.headers.Values || r == resp.finalUrl || r == resp.finalUrlParam
  {
    var rule := RuleFor(domain, pathSegments);
    var resp := fetch(ProbeFor(rule, httpsUrl, q));
    DestinationFromResponse(rule, q, resp);
    Destination(rule, q, resp)
  }

  /** Whatever the domain, a destination is a value the response carried: a header, the final URL or its
      `url` parameter. The extractor never makes a URL up. */
  lemma DestinationFromResponse(rule: Rule, q: Option<string>, resp: Response)
    ensures Destination(rule, q, resp).Some? ==>
      Destination(rule, q, resp).value in resp.headers.Values
      || Destination(rule, q, resp) == resp.finalUrl
      || Destination(rule, q, resp) == resp.finalUrlParam
  {
  }

  /** A request that does not follow redirects is read by its status and headers only; a request that
      follows them is read by the URL it ended on only. */
  lemma ReadsOnlyWhatItAsked(rule: Rule, q: Option<string>, httpsUrl: string, a: Response, b: Response)
    requires ProbeFor(rule, httpsUrl, q).Follow? ==> a.finalUrl == b.finalUrl && a.finalUrlParam == b.finalUrlParam
    requires !ProbeFor(rule, httpsUrl, q).Follow? ==> a.status == b.status && a.headers == b.headers
    ensures Destination(rule, q, a) == Destination(rule, q, b)
  {
  }

  /** On the domains read through `Location`, a response without that header has no destination. */
  lemma NoLocationNoDestination(rule: Rule, q: Option<string>, resp: Response)
    requires rule.AmznTo? || rule.NaverMe? || rule.PinIt? || rule.TCn? || rule.Fallback?
    requires "Location" !in resp.headers
    ensures Destination(rule, q, resp).None?
  {
  }

  // ---------------------------------------------------------------------------------------------
  // Chains of shorteners

  const MaxShortenerAncestors := 5

  /** The kinds of the extractors that led to this one, the nearest first. */
  datatype ExtractorKind = Shortener | OtherSite

  function CountShorteners(parents: seq<ExtractorKind>): (n: nat)
    ensures n <= |parents|
    ensures n == 0 <==> forall i :: 0 <= i < |parents| ==> parents[i] != Shortener
  {
    if parents == [] then 0 else (if parents[0] == Shortener then 1 else 0) + CountShorteners(parents[1..])
  }

  /** `sub_extractor`: the extractor for the destination, unless more than five shorteners already led
      here. `target` stands for `Source::URL.parse(redirect_url)&.extractor`. */
  function SubExtractor<E>(parents: seq<ExtractorKind>, target: Option<E>): (r: Option<E>)
    ensures CountShorteners(parents) > MaxShortenerAncestors ==> r.None?
    ensures CountShorteners(parents) <= MaxShortenerAncestors ==> r == target
  {
    if CountShorteners(parents) > MaxShortenerAncestors then None else target
  }

  /** How many shorteners a chain of links that all lead to further shorteners passes through, when the
      first one was reached through `parents`: every shortener adds itself to the parents of the next. */
  function ChainLength(parents: seq<ExtractorKind>): (n: nat)
    decreases MaxShortenerAncestors + 1 - CountShorteners(parents)
  {
    if CountShorteners(parents) > MaxShortenerAncestors then 1
    else 1 + ChainLength([Shortener] + parents)
  }

  /** Even when every link leads to another shortener, the chain ends: at most six shorteners resolve
      their links, so at most seven are visited from a start with no shortener behind it. */
  lemma {:induction false} ChainBounded(parents: seq<ExtractorKind>)
    ensures CountShorteners(parents) <= MaxShortenerAncestors + 1 ==>
      ChainLength(parents) == MaxShortenerAncestors + 2 - CountShorteners(parents)
    ensures ChainLength(parents) <= MaxShortenerAncestors + 2
    decreases MaxShortenerAncestors + 1 - CountShorteners(parents)
  {
    assert ([Shortener] + parents)[1..] == parents;
    if CountShorteners(parents) <= MaxShortenerAncestors {
      ChainBounded([Shortener] + parents);
    }
  }

  // ---------------------------------------------------------------------------------------------
  // Delegation

  /** What an extractor reports. `artists` are kept as the opaque strings the model does not look into. */
  datatype Report = Report(
    imageUrls: seq<string>, otherNames: seq<string>, profileUrls: seq<string>, tags: seq<(string, string)>,
    artists: seq<string>,
    pageUrl: Option<string>, profileUrl: Option<string>, artistName: Option<string>, displayName: Option<string>,
    username: Option<string>, tagName: Option<string>, commentaryTitle: Option<string>,
    commentaryDesc: Option<string>, dtextCommentaryTitle: Option<string>, dtextCommentaryDesc: Option<string>)

  const EmptyReport := Report([], [], [], [], [], None, None, None, None, None, None, None, None, None, None)

  /** What the shortener reports: everything its sub-extractor reports, or, when there is none, empty
      lists and nil for every delegated value. */
  function Reported(sub: Option<Report>): (r: Report)
    ensures sub.Some? ==> r == sub.value
    ensures sub.None? ==> (r.imageUrls == [] && r.otherNames == [] && r.profileUrls == [] && r.tags == []
                           && r.artists == [])
    ensures sub.None? ==> (r.pageUrl.None? && r.profileUrl.None? && r.artistName.None? && r.displayName.None?
                           && r.username.None? && r.tagName.None? && r.commentaryTitle.None?
                           && r.commentaryDesc.None? && r.dtextCommentaryTitle.None? && r.dtextCommentaryDesc.None?)
  {
    if sub.Some? then sub.value else EmptyReport
  }

  /** Past the nesting limit the shortener reports nothing, whatever its link leads to. */
  lemma TooDeepReportsNothing(parents: seq<ExtractorKind>, target: Option<Report>)
    requires CountShorteners(parents) > MaxShortenerAncestors
    ensures Reported(SubExtractor(parents, target)) == EmptyReport
  {
  }
}
