/**
 * `feedFetcher` and `validateRSSURL`: the decisions they make on what the
 * network returns. The network itself is a function from the requested
 * URL to a response, `None` where `fetch` rejects.
 */
module FeedClient {
  import opened Wrappers
  import opened Text
  import opened FeedParser
  import UrlPattern

  /** The fields of a `fetch` response the code reads; `body` is `response.text()` as `DOMParser` parses it. */
  datatype Response = Response(ok: bool, contentType: Option<string>, body: Document)

  /** What each request returns; `None` is a rejected `fetch`. */
  type Network = string -> Option<Response>

  /**
   * The browser behaviour the page depends on: the network, the text a
   * `div` shows after its `innerHTML` is set (markup stripping), and the
   * timestamp `new Date(s)` gives.
   */
  datatype Browser = Browser(net: Network, stripMarkup: string -> string, dateValue: string -> int)

  /** `feedFetcher.CORSProxy`, put in front of every requested URL. */
  const CorsProxy: string := "https://corsproxy.io/?"

  /** `fetchRSSFeed`: the feed's articles, or `[]` when the request is rejected. The status is not looked at. */
  function FetchRSSFeed(b: Browser, url: string): seq<Article>
  {
    match b.net(CorsProxy + url)
    case None => []
    case Some(response) => ExtractArticles(response.body, b.stripMarkup)
  }

  /** A rejected request, or a feed with a missing lookup, yields no articles; otherwise one per item. */
  lemma FetchAllOrNothing(b: Browser, url: string)
    ensures var r := FetchRSSFeed(b, url);
      && (b.net(CorsProxy + url).None? ==> r == [])
      && (b.net(CorsProxy + url).Some? ==>
            var doc := b.net(CorsProxy + url).value.body;
            (Extractable(doc) ==> |r| == |doc.items|) && (!Extractable(doc) ==> r == []))
  {
    if b.net(CorsProxy + url).Some? {
      var doc := b.net(CorsProxy + url).value.body;
      ExtractAllOrNothing(doc, b.stripMarkup);
      if Extractable(doc) {
        ExtractComplete(doc, b.stripMarkup);
      }
    }
  }

  /** The response's status and content type do not affect the articles: only its body does. */
  lemma FetchIgnoresStatus(b1: Browser, b2: Browser, url: string)
    requires b1.stripMarkup == b2.stripMarkup
    requires b1.net(CorsProxy + url).Some? && b2.net(CorsProxy + url).Some?
    requires b1.net(CorsProxy + url).value.body == b2.net(CorsProxy + url).value.body
    ensures FetchRSSFeed(b1, url) == FetchRSSFeed(b2, url)
  {
  }

  /** The test `validateFeed` applies to a response. */
  predicate AcceptsResponse(response: Response) {
    response.ok && response.contentType.Some? && Contains(response.contentType.value, "xml")
  }

  /** `validateFeed`: false when the request is rejected, otherwise the response test. */
  function ValidateFeed(net: Network, url: string): (accepted: bool)
    ensures accepted <==> (
      && net(CorsProxy + url).Some?
      && net(CorsProxy + url).value.ok
      && net(CorsProxy + url).value.contentType.Some?
      && exists i: nat :: OccursAt(net(CorsProxy + url).value.contentType.value, "xml", i))
  {
    match net(CorsProxy + url)
    case None => false
    case Some(response) =>
      ContainsAt(if response.contentType.Some? then response.contentType.value else "", "xml");
      AcceptsResponse(response)
  }

  /** The part of `validateRSSURL` that is decided before any request is made. */
  predicate PassesUrlGate(url: string) {
    UrlPattern.MatchesDomainPattern(url)
    && (Contains(AsciiLower(url), "rss") || Contains(AsciiLower(url), "feed"))
  }

  /** `validateRSSURL`. */
  function ValidateRSSURL(net: Network, url: string): bool
  {
    if PassesUrlGate(url) then ValidateFeed(net, url) else false
  }

  /**
   * A URL that fails the gate is rejected whatever the network would say:
   * no request decides its outcome. One that passes it is decided by the
   * request alone.
   */
  lemma GateDecidesRequest(url: string, net1: Network, net2: Network)
    ensures !PassesUrlGate(url) ==> !ValidateRSSURL(net1, url) && !ValidateRSSURL(net2, url)
    ensures PassesUrlGate(url) ==> ValidateRSSURL(net1, url) == ValidateFeed(net1, url)
  {
  }

  /** The URL mentions `rss` or `feed`, in any letter case. */
  ghost predicate MentionsFeed(url: string) {
    (exists i: nat :: OccursAt(AsciiLower(url), "rss", i)) || (exists i: nat :: OccursAt(AsciiLower(url), "feed", i))
  }

  /** The gate in words: a URL built from the domain pattern's parts that mentions `rss` or `feed`. */
  lemma UrlGateMeaning(url: string)
    ensures PassesUrlGate(url) <==> UrlPattern.Composed(url) && MentionsFeed(url)
  {
    ContainsAt(AsciiLower(url), "rss");
    ContainsAt(AsciiLower(url), "feed");
    UrlPattern.DomainPatternIff(url);
  }

  /** Text that is not a URL is refused before any request. */
  lemma NotAUrl(net: Network, u: string)
    requires u == "not a url"
    ensures !ValidateRSSURL(net, u)
  {
    assert !("https://" <= u) by { assert "https://"[0] != u[0]; }
    assert !("http://" <= u) by { assert "http://"[0] != u[0]; }
    UrlPattern.SlashIndexAt(u, |u|);
    UrlPattern.LabelLengthAt(u, 3);
    assert u[..9] == u;
  }

  /**
   * `validateRSSURL` in words: the URL is built from the domain pattern's
   * parts and mentions `rss` or `feed`, the proxied request succeeds with
   * an `ok` status, and its Content-Type contains `xml`.
   */
  lemma ValidateRSSURLMeaning(net: Network, url: string)
    ensures ValidateRSSURL(net, url) <==> (
      && UrlPattern.Composed(url) && MentionsFeed(url)
      && net(CorsProxy + url).Some? && net(CorsProxy + url).value.ok
      && net(CorsProxy + url).value.contentType.Some?
      && exists i: nat :: OccursAt(net(CorsProxy + url).value.contentType.value, "xml", i))
  {
    UrlGateMeaning(url);
  }

  /** A feed URL of the usual shape reaches the request, and is accepted exactly when the response is. */
  lemma FeedUrlReachesRequest(net: Network, u: string)
    requires u == "https://example.com/rss"
    ensures ValidateRSSURL(net, u) == ValidateFeed(net, u)
  {
    ExampleMatches(u);
    ExampleMentionsRss(u);
  }

  /** `https://example.com/rss` is an optional scheme, two labels and a path. */
  lemma ExampleMatches(u: string)
    requires u == "https://example.com/rss"
    ensures UrlPattern.MatchesDomainPattern(u)
  {
    var labels := ["example", "com"];
    assert UrlPattern.Join(labels) == "example.com";
    assert UrlPattern.Compose("https://", labels, Some("rss")) == u;
    UrlPattern.ComposeMatches("https://", labels, Some("rss"));
  }

  /** Its lower-cased form contains `rss`, at index 20. */
  lemma ExampleMentionsRss(u: string)
    requires u == "https://example.com/rss"
    ensures Contains(AsciiLower(u), "rss")
  {
    var lower := AsciiLower(u);
    assert u[20] == 'r' && u[21] == 's' && u[22] == 's';
    assert lower[20..23] == "rss";
    assert OccursAt(lower, "rss", 20);
    ContainsAt(lower, "rss");
  }
}
