/**
 * The item-to-Article mapping of `feedFetcher.fetchRSSFeed`, over an
 * abstract parsed document. Each DOM lookup `getElementsByTagName(t)[0]`
 * becomes an `Option`: `None` is the missing element whose `.textContent`
 * throws, which the surrounding `catch` turns into an empty feed.
 */
module FeedParser {
  import opened Wrappers
  import opened Text
  import Escape

  /**
   * One `<item>`: the text of its first `title`, `pubDate`, `link` and
   * `description` descendants, and, for each descendant element in
   * document order, its `url` attribute if it has one.
   */
  datatype Item = Item(
    title: Option<string>,
    pubDate: Option<string>,
    link: Option<string>,
    description: Option<string>,
    urlAttributes: seq<Option<string>>)

  /**
   * A parsed feed: the text of the first `<title>` element of the whole
   * document (usually the channel's), and its `<item>` elements in order.
   */
  datatype Document = Document(firstTitle: Option<string>, items: seq<Item>)

  /** The `Article` record; `imageUrl` is `None` where the source leaves it undefined. */
  datatype Article = Article(
    feed: string,
    title: string,
    date: string,
    url: string,
    description: string,
    imageUrl: Option<string>)

  /** `find(element => element.hasAttribute("url"))?.getAttribute("url")`. */
  function FirstUrl(attributes: seq<Option<string>>): (r: Option<string>)
    ensures r.None? <==> forall k :: 0 <= k < |attributes| ==> attributes[k].None?
    ensures r.Some? ==> exists k :: FirstWithUrl(attributes, k) && attributes[k] == r
  {
    if attributes == [] then None
    else if attributes[0].Some? then attributes[0]
    else
      var r := FirstUrl(attributes[1..]);
      assert r.Some? ==> exists k :: FirstWithUrl(attributes[1..], k) && attributes[1..][k] == r;
      assert forall k :: FirstWithUrl(attributes[1..], k) ==> FirstWithUrl(attributes, k + 1);
      r
  }

  /** Element `k` is the first in document order that has a `url` attribute. */
  predicate FirstWithUrl(attributes: seq<Option<string>>, k: int) {
    0 <= k < |attributes| && attributes[k].Some? && forall j :: 0 <= j < k ==> attributes[j].None?
  }

  /** `capitalizeString(feedDomain.match(/^[\w]+/)[0])`; `None` where the match is null and indexing it throws. */
  function FeedName(feedDomain: string): (r: Option<string>)
    ensures r.Some? <==> feedDomain != [] && IsWordChar(feedDomain[0])
    ensures r.Some? ==> r.value != [] && r.value[0] == UpperChar(feedDomain[0]) && r.value[1..] <= feedDomain[1..]
    ensures r.Some? ==> (forall i :: 0 <= i < |r.value| ==> IsWordChar(r.value[i])) && !IsLowerAscii(r.value[0])
    ensures r.Some? ==> |r.value| == |feedDomain| || !IsWordChar(feedDomain[|r.value|])
  {
    var run := LeadingWordRun(feedDomain);
    CapitalizeWordRun(run);
    assert run != [] ==> run[1..] <= feedDomain[1..];
    if run == [] then None else Some(Capitalize(run))
  }

  /** The body of the `items.map` callback; `None` where one of its lookups throws. */
  function ArticleOf(item: Item, feedDomain: string, strip: string -> string): Option<Article> {
    if item.title.None? then None
    else match FeedName(feedDomain)
      case None => None
      case Some(feed) =>
        if item.pubDate.None? || item.link.None? || item.description.None? then None
        else Some(Article(
          feed,
          item.title.value,
          item.pubDate.value,
          item.link.value,
          Escape.Normalize(strip(item.description.value)),
          FirstUrl(item.urlAttributes)))
  }

  /** All the values when every element is present; `None` when one is missing. */
  function AllPresent<T>(xs: seq<Option<T>>): Option<seq<T>> {
    if xs == [] then Some([])
    else match xs[0]
      case None => None
      case Some(x) =>
        match AllPresent(xs[1..])
        case None => None
        case Some(rest) => Some([x] + rest)
  }

  /** `items.map(...)`: the callback on each item in order; `None` once one of them throws. */
  function ArticlesOf(items: seq<Item>, feedDomain: string, strip: string -> string): Option<seq<Article>> {
    AllPresent(seq(|items|, i requires 0 <= i < |items| => ArticleOf(items[i], feedDomain, strip)))
  }

  /** The articles of one parsed feed: all of them, or `[]` from the `catch`. */
  function ExtractArticles(doc: Document, strip: string -> string): seq<Article> {
    match doc.firstTitle
    case None => []
    case Some(feedDomain) =>
      match ArticlesOf(doc.items, feedDomain, strip)
      case None => []
      case Some(articles) => articles
  }

  /** An item carries all four lookups the callback makes. */
  predicate Complete(item: Item) {
    item.title.Some? && item.pubDate.Some? && item.link.Some? && item.description.Some?
  }

  /** Every lookup the extraction makes succeeds. */
  predicate Extractable(doc: Document) {
    && doc.firstTitle.Some?
    && FeedName(doc.firstTitle.value).Some?
    && forall i :: 0 <= i < |doc.items| ==> Complete(doc.items[i])
  }

  /** What one article holds, given the item it comes from and the document's first title. */
  predicate ArticleFrom(a: Article, item: Item, feedDomain: string, strip: string -> string)
    requires Complete(item)
  {
    && a.feed == Capitalize(LeadingWordRun(feedDomain))
    && a.title == item.title.value
    && a.date == item.pubDate.value
    && a.url == item.link.value
    && a.description == Escape.Normalize(strip(item.description.value))
    && a.imageUrl == FirstUrl(item.urlAttributes)
  }

  /** The callback on an item with all four lookups gives the article `ArticleFrom` describes. */
  lemma ArticleOfComplete(item: Item, feedDomain: string, strip: string -> string)
    requires FeedName(feedDomain).Some? && Complete(item)
    ensures ArticleOf(item, feedDomain, strip).Some?
    ensures ArticleFrom(ArticleOf(item, feedDomain, strip).value, item, feedDomain, strip)
  {
  }

  lemma {:induction false} AllPresentSome<T>(xs: seq<Option<T>>)
    requires forall i :: 0 <= i < |xs| ==> xs[i].Some?
    ensures AllPresent(xs).Some?
    ensures |AllPresent(xs).value| == |xs|
    ensures forall i :: 0 <= i < |xs| ==> Some(AllPresent(xs).value[i]) == xs[i]
  {
    if xs != [] {
      AllPresentSome(xs[1..]);
      var rest := AllPresent(xs[1..]).value;
      var r := AllPresent(xs).value;
      assert r == [xs[0].value] + rest;
      forall i | 0 < i < |xs|
        ensures Some(r[i]) == xs[i]
      {
        assert r[i] == rest[i - 1] && xs[i] == xs[1..][i - 1];
      }
    }
  }

  lemma {:induction false} AllPresentNone<T>(xs: seq<Option<T>>, i: nat)
    requires i < |xs| && xs[i].None?
    ensures AllPresent(xs).None?
  {
    if i > 0 && xs[0].Some? {
      assert xs[1..][i - 1] == xs[i];
      AllPresentNone(xs[1..], i - 1);
    }
  }

  lemma ArticlesOfSome(items: seq<Item>, feedDomain: string, strip: string -> string)
    requires FeedName(feedDomain).Some?
    requires forall i :: 0 <= i < |items| ==> Complete(items[i])
    ensures ArticlesOf(items, feedDomain, strip).Some?
    ensures var r := ArticlesOf(items, feedDomain, strip).value;
      |r| == |items| && forall i :: 0 <= i < |items| ==> ArticleFrom(r[i], items[i], feedDomain, strip)
  {
    var xs := seq(|items|, i requires 0 <= i < |items| => ArticleOf(items[i], feedDomain, strip));
    forall i | 0 <= i < |items|
      ensures xs[i].Some? && ArticleFrom(xs[i].value, items[i], feedDomain, strip)
    {
      ArticleOfComplete(items[i], feedDomain, strip);
    }
    AllPresentSome(xs);
  }

  lemma ArticlesOfNone(items: seq<Item>, feedDomain: string, strip: string -> string, i: nat)
    requires i < |items|
    requires !Complete(items[i]) || FeedName(feedDomain).None?
    ensures ArticlesOf(items, feedDomain, strip).None?
  {
    var xs := seq(|items|, i requires 0 <= i < |items| => ArticleOf(items[i], feedDomain, strip));
    AllPresentNone(xs, i);
  }

  /**
   * A feed whose lookups all succeed yields one article per item, in
   * document order, each named after the capitalised leading word run of
   * the document's first title, with its image the first descendant `url`
   * attribute.
   */
  lemma ExtractComplete(doc: Document, strip: string -> string)
    requires Extractable(doc)
    ensures var r := ExtractArticles(doc, strip);
      |r| == |doc.items|
      && forall i :: 0 <= i < |r| ==> ArticleFrom(r[i], doc.items[i], doc.firstTitle.value, strip)
  {
    ArticlesOfSome(doc.items, doc.firstTitle.value, strip);
  }

  /**
   * All or nothing: a missing title element, a first title with no leading
   * word character (once there is an item to name), or any item missing a
   * lookup gives the empty list, never part of the list.
   */
  lemma ExtractAllOrNothing(doc: Document, strip: string -> string)
    ensures var r := ExtractArticles(doc, strip);
      (r == [] || |r| == |doc.items|)
      && (!Extractable(doc) ==> r == [])
  {
    if doc.firstTitle.Some? {
      var d := doc.firstTitle.value;
      if FeedName(d).Some? && forall i :: 0 <= i < |doc.items| ==> Complete(doc.items[i]) {
        ArticlesOfSome(doc.items, d, strip);
      } else if doc.items != [] {
        if FeedName(d).None? {
          ArticlesOfNone(doc.items, d, strip, 0);
        } else {
          var i :| 0 <= i < |doc.items| && !Complete(doc.items[i]);
          ArticlesOfNone(doc.items, d, strip, i);
        }
      }
    }
  }

  /** Every extracted description is HTML-safe text: no raw specials, and every `&` starts an entity. */
  lemma ExtractedDescriptionsSafe(doc: Document, strip: string -> string)
    ensures forall a :: a in ExtractArticles(doc, strip) ==> Escape.SafeHtml(a.description)
  {
    ExtractAllOrNothing(doc, strip);
    if Extractable(doc) {
      ExtractComplete(doc, strip);
      var r := ExtractArticles(doc, strip);
      forall a | a in r ensures Escape.SafeHtml(a.description) {
        var i :| 0 <= i < |r| && r[i] == a;
        Escape.EscapeSafe(Trim(strip(doc.items[i].description.value)));
      }
    }
  }
}
