/**
 * The page's state and its handlers: the module-level `feedURLs` array,
 * the `localStorage` entry `feedURLs` it is saved to and loaded from, the
 * rows of the URL table and of the article table, the input box and the
 * modal's visibility.
 */
module Reader {
  import opened Wrappers
  import FeedClient
  import Aggregate
  import FeedParser

  /** `loadURLs`: the saved list, or `[]` when nothing is saved. */
  function Loaded(stored: Option<seq<string>>): seq<string>
  {
    if stored.Some? then stored.value else []
  }

  /** Where `splice(index, 1)` starts: negative indexes count from the end, and both ends clamp. */
  function SpliceStart(n: nat, index: int): (k: nat)
    ensures k <= n
  {
    if index < 0 then (if n + index < 0 then 0 else n + index)
    else if index > n then n
    else index
  }

  /** `feedURLs.splice(index, 1)`: the list without the element at the start position, if there is one. */
  function SpliceOne(s: seq<string>, index: int): seq<string>
  {
    var k := SpliceStart(|s|, index);
    if k < |s| then s[..k] + s[k + 1..] else s
  }

  /** At an index inside the list, exactly that element goes and the rest keep their order. */
  lemma SpliceInside(s: seq<string>, index: int)
    requires 0 <= index < |s|
    ensures SpliceOne(s, index) == s[..index] + s[index + 1..]
    ensures |SpliceOne(s, index)| == |s| - 1
    ensures multiset(SpliceOne(s, index)) + multiset{s[index]} == multiset(s)
  {
    assert s == s[..index] + [s[index]] + s[index + 1..];
  }

  /** A negative index counts from the end: -1 removes the last element. */
  lemma SpliceNegative(s: seq<string>, index: int)
    requires index < 0 <= |s| + index
    ensures SpliceOne(s, index) == s[..|s| + index] + s[|s| + index + 1..]
  {
  }

  /** An index past the end removes nothing; one before the start removes the first element. */
  lemma SpliceOutside(s: seq<string>, index: int)
    ensures index >= |s| ==> SpliceOne(s, index) == s
    ensures |s| + index < 0 && s != [] ==> SpliceOne(s, index) == s[1..]
  {
  }

  /** A concrete deletion from the middle of a three-element list. */
  lemma SpliceExample(s: seq<string>)
    requires s == ["a", "b", "c"]
    ensures SpliceOne(s, 1) == ["a", "c"]
  {
    SpliceInside(s, 1);
    assert s[..1] == ["a"] && s[2..] == ["c"];
  }

  /** One row of the URL table: the URL and the index its delete button passes to `deleteURL`. */
  datatype UrlRow = UrlRow(url: string, deleteIndex: nat)

  /** The rows `populateTable` writes for the list. */
  function UrlRowsOf(urls: seq<string>): seq<UrlRow>
  {
    seq(|urls|, i requires 0 <= i < |urls| => UrlRow(urls[i], i))
  }

  /** The delete button of row `i` removes exactly URL `i`. */
  lemma DeleteButtonRemovesItsRow(urls: seq<string>, i: nat)
    requires i < |urls|
    ensures |UrlRowsOf(urls)| == |urls|
    ensures UrlRowsOf(urls)[i].url == urls[i]
    ensures SpliceOne(urls, UrlRowsOf(urls)[i].deleteIndex) == urls[..i] + urls[i + 1..]
  {
    SpliceInside(urls, i);
  }

  class Reader {
    /** The `localStorage` entry `feedURLs`; `None` when it was never written. */
    var stored: Option<seq<string>>
    /** The module-level `feedURLs` array. */
    var feedURLs: seq<string>
    /** The rows of the URL table body. */
    var urlRows: seq<UrlRow>
    /** The rows of the article table, in the order they were appended. */
    var articleRows: seq<Aggregate.Row>
    /** The input box's value. */
    var inputText: string
    /** Whether the modal shows (`toggle-modal` is set). */
    var modalOpen: bool

    /** The page as loaded, over what storage already holds: `let feedURLs = []`. */
    constructor(storage: Option<seq<string>>)
      ensures stored == storage && feedURLs == [] && urlRows == [] && articleRows == []
      ensures inputText == "" && !modalOpen
    {
      stored := storage;
      feedURLs := [];
      urlRows := [];
      articleRows := [];
      inputText := "";
      modalOpen := false;
    }

    /** The in-memory list is the saved one. */
    predicate InSync()
      reads this
    {
      feedURLs == Loaded(stored)
    }

    /** `loadURLs`. */
    method LoadURLs()
      modifies this
      ensures feedURLs == Loaded(stored) && InSync()
      ensures stored == old(stored) && urlRows == old(urlRows) && articleRows == old(articleRows)
      ensures inputText == old(inputText) && modalOpen == old(modalOpen)
    {
      feedURLs := Loaded(stored);
    }

    /** `saveURLs`: storage is overwritten with the whole list. */
    method SaveURLs()
      modifies this
      ensures stored == Some(feedURLs) && InSync()
      ensures feedURLs == old(feedURLs) && urlRows == old(urlRows) && articleRows == old(articleRows)
      ensures inputText == old(inputText) && modalOpen == old(modalOpen)
    {
      stored := Some(feedURLs);
    }

    /**
     * `renderArticles`: reloads the list, then appends one row per
     * fetched article, newest first. The table is not cleared first.
     */
    method RenderArticles(b: FeedClient.Browser)
      modifies this
      ensures feedURLs == Loaded(stored) && InSync()
      ensures articleRows == old(articleRows) + Aggregate.RowsOf(Aggregate.Rendered(b, feedURLs))
      ensures stored == old(stored) && urlRows == old(urlRows)
      ensures inputText == old(inputText) && modalOpen == old(modalOpen)
    {
      LoadURLs();
      var articles := Aggregate.Rendered(b, feedURLs);
      AppendArticleRows(articles);
    }

    /** The `forEach` of `renderArticles`: `createArticle` for each article and its index, appended in order. */
    method AppendArticleRows(articles: seq<FeedParser.Article>)
      modifies this
      ensures articleRows == old(articleRows) + Aggregate.RowsOf(articles)
      ensures stored == old(stored) && feedURLs == old(feedURLs) && urlRows == old(urlRows)
      ensures inputText == old(inputText) && modalOpen == old(modalOpen)
    {
      var rows := Aggregate.RowsOf(articles);
      var i := 0;
      while i < |articles|
        invariant 0 <= i <= |articles|
        invariant articleRows == old(articleRows) + rows[..i]
        invariant stored == old(stored) && feedURLs == old(feedURLs) && urlRows == old(urlRows)
        invariant inputText == old(inputText) && modalOpen == old(modalOpen)
      {
        Aggregate.RowAt(articles, i);
        articleRows := articleRows + [Aggregate.ArticleRow(articles[i], i)];
        assert rows[..i + 1] == rows[..i] + [rows[i]];
        i := i + 1;
      }
      assert rows[..i] == rows;
    }

    /** `populateTable`: reloads the list, rewrites the URL table, then renders the articles. */
    method PopulateTable(b: FeedClient.Browser)
      modifies this
      ensures feedURLs == Loaded(stored) && InSync()
      ensures urlRows == UrlRowsOf(feedURLs)
      ensures articleRows == old(articleRows) + Aggregate.RowsOf(Aggregate.Rendered(b, feedURLs))
      ensures stored == old(stored)
      ensures inputText == old(inputText) && modalOpen == old(modalOpen)
    {
      LoadURLs();
      urlRows := UrlRowsOf(feedURLs);
      RenderArticles(b);
    }

    /** `deleteURL(index)`: splice the in-memory list, save it whole, repopulate. */
    method DeleteURL(index: int, b: FeedClient.Browser)
      modifies this
      ensures feedURLs == SpliceOne(old(feedURLs), index)
      ensures stored == Some(feedURLs) && InSync()
      ensures urlRows == UrlRowsOf(feedURLs)
      ensures articleRows == old(articleRows) + Aggregate.RowsOf(Aggregate.Rendered(b, feedURLs))
      ensures inputText == old(inputText) && modalOpen == old(modalOpen)
    {
      feedURLs := SpliceOne(feedURLs, index);
      SaveURLs();
      PopulateTable(b);
    }

    /**
     * The save button's handler. Empty input does nothing. Otherwise the
     * text is validated; a valid URL is pushed, saved and the tables are
     * repopulated; an invalid one raises the alert (`alerted`). Either way
     * the input box is cleared.
     */
    method SaveClicked(b: FeedClient.Browser) returns (alerted: bool)
      modifies this
      ensures old(inputText) == "" ==> !alerted
      ensures old(inputText) == "" ==> stored == old(stored) && feedURLs == old(feedURLs)
      ensures old(inputText) == "" ==> urlRows == old(urlRows) && articleRows == old(articleRows) && inputText == ""
      ensures old(inputText) != "" ==> inputText == "" && (alerted <==> !FeedClient.ValidateRSSURL(b.net, old(inputText)))
      ensures old(inputText) != "" && alerted ==>
        stored == old(stored) && feedURLs == old(feedURLs) && urlRows == old(urlRows) && articleRows == old(articleRows)
      ensures old(inputText) != "" && !alerted ==>
        && feedURLs == old(feedURLs) + [old(inputText)]
        && stored == Some(feedURLs)
        && urlRows == UrlRowsOf(feedURLs)
        && articleRows == old(articleRows) + Aggregate.RowsOf(Aggregate.Rendered(b, feedURLs))
      ensures old(InSync()) && old(inputText) != "" && !alerted ==>
        Loaded(stored) == Loaded(old(stored)) + [old(inputText)]
      ensures modalOpen == old(modalOpen)
    {
      alerted := false;
      var text := inputText;
      if text != "" {
        var isValid := FeedClient.ValidateRSSURL(b.net, text);
        if isValid {
          AddURL(text, b);
          inputText := "";
        } else {
          alerted := true;
          inputText := "";
        }
      }
    }

    /** The valid branch of the save handler: push the URL, save the list, repopulate. */
    method AddURL(text: string, b: FeedClient.Browser)
      modifies this
      ensures feedURLs == old(feedURLs) + [text]
      ensures stored == Some(feedURLs) && InSync()
      ensures urlRows == UrlRowsOf(feedURLs)
      ensures articleRows == old(articleRows) + Aggregate.RowsOf(Aggregate.Rendered(b, feedURLs))
      ensures inputText == old(inputText) && modalOpen == old(modalOpen)
    {
      feedURLs := feedURLs + [text];
      SaveURLs();
      PopulateTable(b);
    }

    /** The add button's handler: toggle the modal, then populate the tables. */
    method AddClicked(b: FeedClient.Browser)
      modifies this
      ensures modalOpen == !old(modalOpen)
      ensures feedURLs == Loaded(stored) && InSync()
      ensures urlRows == UrlRowsOf(feedURLs)
      ensures articleRows == old(articleRows) + Aggregate.RowsOf(Aggregate.Rendered(b, feedURLs))
      ensures stored == old(stored) && inputText == old(inputText)
    {
      modalOpen := !modalOpen;
      PopulateTable(b);
    }

    /** The window's click handler: a click on the modal's backdrop closes (toggles) it. */
    method WindowClicked(onModal: bool)
      modifies this
      ensures modalOpen == (if onModal then !old(modalOpen) else old(modalOpen))
      ensures stored == old(stored) && feedURLs == old(feedURLs) && urlRows == old(urlRows)
      ensures articleRows == old(articleRows) && inputText == old(inputText)
    {
      if onModal {
        modalOpen := !modalOpen;
      }
    }
  }
}
