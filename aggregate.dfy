/**
 * `renderArticles`: the per-feed lists fetched for every saved URL are
 * concatenated (`arrays.flat()`) and sorted newest first with the
 * comparator `new Date(b.date) - new Date(a.date)`; `createArticle` then
 * turns each article into a table row, styled alternately.
 *
 * `Array.prototype.sort` is stable, so the order is fully determined:
 * newest first, and articles with the same timestamp in their merged
 * order. `SortByDate` is that order, written as an insertion sort, and
 * `SortCharacterized` proves it is the only such order.
 */
module Aggregate {
  import opened Wrappers
  import opened FeedParser
  import FeedClient

  /** The timestamp `new Date(s)` gives for a date string. */
  type DateValue = string -> int

  /** `arrays.flat()`: the lists one after another. */
  function Flatten(feeds: seq<seq<Article>>): seq<Article>
  {
    if feeds == [] then [] else feeds[0] + Flatten(feeds[1..])
  }

  lemma {:induction false} FlattenAppend(a: seq<seq<Article>>, b: seq<seq<Article>>)
    ensures Flatten(a + b) == Flatten(a) + Flatten(b)
    decreases |a|
  {
    if a == [] {
      assert a + b == b;
    } else {
      assert (a + b)[1..] == a[1..] + b;
      FlattenAppend(a[1..], b);
    }
  }

  /** Each feed's articles appear in the merged list as one block, in feed order. */
  lemma FlattenBlock(feeds: seq<seq<Article>>, k: nat)
    requires k < |feeds|
    ensures Flatten(feeds) == Flatten(feeds[..k]) + feeds[k] + Flatten(feeds[k + 1..])
  {
    var rest := feeds[k..];
    assert feeds == feeds[..k] + rest;
    FlattenAppend(feeds[..k], rest);
    assert rest[0] == feeds[k] && rest[1..] == feeds[k + 1..];
    assert Flatten(rest) == feeds[k] + Flatten(feeds[k + 1..]);
  }

  /** An article is in the merged list exactly when it is in one of the feeds. */
  lemma {:induction false} FlattenMember(feeds: seq<seq<Article>>, a: Article)
    ensures a in Flatten(feeds) <==> exists k :: 0 <= k < |feeds| && a in feeds[k]
    decreases |feeds|
  {
    if feeds != [] {
      FlattenMember(feeds[1..], a);
      if a in feeds[0] {
        assert 0 < |feeds| && a in feeds[0];
      }
      if exists k :: 0 <= k < |feeds| && a in feeds[k] {
        var k :| 0 <= k < |feeds| && a in feeds[k];
        if k > 0 {
          assert a in feeds[1..][k - 1];
        }
      }
      if exists k :: 0 <= k < |feeds[1..]| && a in feeds[1..][k] {
        var k :| 0 <= k < |feeds[1..]| && a in feeds[1..][k];
        assert a in feeds[k + 1];
      }
    }
  }

  /** Places `x` after every article of `r` at least as new as it. */
  function Insert(r: seq<Article>, x: Article, dv: DateValue): seq<Article>
  {
    if r == [] || dv(r[0].date) < dv(x.date) then [x] + r
    else [r[0]] + Insert(r[1..], x, dv)
  }

  /** The order the stable sort with comparator `dv(b.date) - dv(a.date)` produces. */
  function SortByDate(s: seq<Article>, dv: DateValue): seq<Article>
  {
    if s == [] then [] else Insert(SortByDate(s[..|s| - 1], dv), s[|s| - 1], dv)
  }

  /** Newest first: timestamps never increase along the list. */
  predicate NewestFirst(r: seq<Article>, dv: DateValue) {
    forall i, j :: 0 <= i < j < |r| ==> dv(r[i].date) >= dv(r[j].date)
  }

  /** The articles of `s` with timestamp `t`, in their order in `s`. */
  function DatedAt(s: seq<Article>, t: int, dv: DateValue): seq<Article>
  {
    if s == [] then []
    else (if dv(s[0].date) == t then [s[0]] else []) + DatedAt(s[1..], t, dv)
  }

  /** `a` and `b` hold the same articles, in the same order, at every timestamp. */
  ghost predicate SameAtEveryDate(a: seq<Article>, b: seq<Article>, dv: DateValue) {
    forall t :: DatedAt(a, t, dv) == DatedAt(b, t, dv)
  }

  lemma {:induction false} InsertMultiset(r: seq<Article>, x: Article, dv: DateValue)
    ensures multiset(Insert(r, x, dv)) == multiset(r) + multiset{x}
    decreases |r|
  {
    if r != [] && dv(r[0].date) >= dv(x.date) {
      InsertMultiset(r[1..], x, dv);
      assert r == [r[0]] + r[1..];
    }
  }

  lemma NewestFirstCons(a: Article, r: seq<Article>, dv: DateValue)
    requires NewestFirst(r, dv)
    requires forall y :: y in r ==> dv(a.date) >= dv(y.date)
    ensures NewestFirst([a] + r, dv)
  {
    var s := [a] + r;
    forall i, j | 0 <= i < j < |s|
      ensures dv(s[i].date) >= dv(s[j].date)
    {
      if i > 0 {
        assert s[i] == r[i - 1] && s[j] == r[j - 1];
      } else {
        assert s[j] == r[j - 1];
        assert s[j] in r;
      }
    }
  }

  lemma {:induction false} InsertSorted(r: seq<Article>, x: Article, dv: DateValue)
    requires NewestFirst(r, dv)
    ensures NewestFirst(Insert(r, x, dv), dv)
    decreases |r|
  {
    if r == [] || dv(r[0].date) < dv(x.date) {
      forall y | y in r
        ensures dv(x.date) >= dv(y.date)
      {
        var k :| 0 <= k < |r| && r[k] == y;
        assert dv(r[0].date) >= dv(r[k].date);
      }
      NewestFirstCons(x, r, dv);
    } else {
      var tail := r[1..];
      assert NewestFirst(tail, dv) by {
        forall i, j | 0 <= i < j < |tail|
          ensures dv(tail[i].date) >= dv(tail[j].date)
        {
          assert tail[i] == r[i + 1] && tail[j] == r[j + 1];
        }
      }
      InsertSorted(tail, x, dv);
      InsertMultiset(tail, x, dv);
      forall y | y in Insert(tail, x, dv)
        ensures dv(r[0].date) >= dv(y.date)
      {
        assert y in multiset(Insert(tail, x, dv));
        if y != x {
          assert y in multiset(tail);
          var k :| 0 <= k < |tail| && tail[k] == y;
          assert tail[k] == r[k + 1];
        }
      }
      NewestFirstCons(r[0], Insert(tail, x, dv), dv);
    }
  }

  /** The sorted list is newest first. */
  lemma {:induction false} SortSorted(s: seq<Article>, dv: DateValue)
    ensures NewestFirst(SortByDate(s, dv), dv)
    decreases |s|
  {
    if s != [] {
      SortSorted(s[..|s| - 1], dv);
      InsertSorted(SortByDate(s[..|s| - 1], dv), s[|s| - 1], dv);
    }
  }

  /** The sorted list is a permutation of its input. */
  lemma {:induction false} SortPermutation(s: seq<Article>, dv: DateValue)
    ensures multiset(SortByDate(s, dv)) == multiset(s)
    decreases |s|
  {
    if s != [] {
      SortPermutation(s[..|s| - 1], dv);
      InsertMultiset(SortByDate(s[..|s| - 1], dv), s[|s| - 1], dv);
      assert s == s[..|s| - 1] + [s[|s| - 1]];
    }
  }

  lemma {:induction false} DatedAtAppend(a: seq<Article>, b: seq<Article>, t: int, dv: DateValue)
    ensures DatedAt(a + b, t, dv) == DatedAt(a, t, dv) + DatedAt(b, t, dv)
    decreases |a|
  {
    if a == [] {
      assert a + b == b;
    } else {
      var h := if dv(a[0].date) == t then [a[0]] else [];
      assert (a + b)[0] == a[0];
      assert (a + b)[1..] == a[1..] + b;
      assert DatedAt(a + b, t, dv) == h + DatedAt(a[1..] + b, t, dv);
      DatedAtAppend(a[1..], b, t, dv);
      assert DatedAt(a, t, dv) == h + DatedAt(a[1..], t, dv);
    }
  }

  /** What `DatedAt` keeps is from `s` and has timestamp `t`. */
  lemma {:induction false} DatedAtMembers(s: seq<Article>, t: int, dv: DateValue)
    ensures forall y :: y in DatedAt(s, t, dv) ==> y in s && dv(y.date) == t
    decreases |s|
  {
    if s != [] {
      DatedAtMembers(s[1..], t, dv);
    }
  }

  lemma DatedAtNone(s: seq<Article>, t: int, dv: DateValue)
    requires forall y :: y in s ==> dv(y.date) < t
    ensures DatedAt(s, t, dv) == []
  {
    DatedAtMembers(s, t, dv);
  }

  lemma {:induction false} InsertStable(r: seq<Article>, x: Article, t: int, dv: DateValue)
    requires NewestFirst(r, dv)
    ensures DatedAt(Insert(r, x, dv), t, dv) == DatedAt(r, t, dv) + (if dv(x.date) == t then [x] else [])
    decreases |r|
  {
    if r == [] {
    } else if dv(r[0].date) < dv(x.date) {
      if dv(x.date) == t {
        forall y | y in r
          ensures dv(y.date) < t
        {
          var k :| 0 <= k < |r| && r[k] == y;
          assert dv(r[0].date) >= dv(r[k].date);
        }
        DatedAtNone(r, t, dv);
      }
      assert ([x] + r)[1..] == r;
    } else {
      var tail := r[1..];
      assert NewestFirst(tail, dv) by {
        forall i, j | 0 <= i < j < |tail|
          ensures dv(tail[i].date) >= dv(tail[j].date)
        {
          assert tail[i] == r[i + 1] && tail[j] == r[j + 1];
        }
      }
      InsertStable(tail, x, t, dv);
      assert ([r[0]] + Insert(tail, x, dv))[1..] == Insert(tail, x, dv);
    }
  }

  /** Stability: for every timestamp, the articles carrying it keep their merged order. */
  lemma {:induction false} SortStable(s: seq<Article>, t: int, dv: DateValue)
    ensures DatedAt(SortByDate(s, dv), t, dv) == DatedAt(s, t, dv)
    decreases |s|
  {
    if s != [] {
      var init := s[..|s| - 1];
      var last := s[|s| - 1];
      SortStable(init, t, dv);
      SortSorted(init, dv);
      InsertStable(SortByDate(init, dv), last, t, dv);
      assert s == init + [last];
      DatedAtAppend(init, [last], t, dv);
      assert DatedAt([last], t, dv) == (if dv(last.date) == t then [last] else []) + DatedAt([], t, dv);
    }
  }

  lemma NewestFirstTail(r: seq<Article>, dv: DateValue)
    requires r != [] && NewestFirst(r, dv)
    ensures NewestFirst(r[1..], dv)
    ensures forall y :: y in r ==> dv(r[0].date) >= dv(y.date)
  {
    var tail := r[1..];
    forall i, j | 0 <= i < j < |tail|
      ensures dv(tail[i].date) >= dv(tail[j].date)
    {
      assert tail[i] == r[i + 1] && tail[j] == r[j + 1];
    }
    forall y | y in r
      ensures dv(r[0].date) >= dv(y.date)
    {
      var k :| 0 <= k < |r| && r[k] == y;
      if k > 0 {
        assert dv(r[0].date) >= dv(r[k].date);
      }
    }
  }

  lemma DatedAtHead(s: seq<Article>, dv: DateValue)
    requires s != []
    ensures DatedAt(s, dv(s[0].date), dv) != []
  {
  }

  /** Two newest-first lists with the same articles at every timestamp, in the same order, are equal. */
  lemma {:induction false} SortUnique(a: seq<Article>, b: seq<Article>, dv: DateValue)
    requires NewestFirst(a, dv) && NewestFirst(b, dv)
    requires SameAtEveryDate(a, b, dv)
    ensures a == b
    decreases |a| + |b|
  {
    if a == [] && b == [] {
    } else if a == [] {
      DatedAtHead(b, dv);
      assert false;
    } else if b == [] {
      DatedAtHead(a, dv);
      assert false;
    } else {
      var ta := dv(a[0].date);
      var tb := dv(b[0].date);
      NewestFirstTail(a, dv);
      NewestFirstTail(b, dv);
      DatedAtMembers(b, ta, dv);
      DatedAtMembers(a, tb, dv);
      assert DatedAt(a, ta, dv)[0] == a[0];
      assert DatedAt(b, ta, dv)[0] in DatedAt(b, ta, dv);
      assert DatedAt(a, tb, dv)[0] in DatedAt(a, tb, dv);
      assert DatedAt(b, tb, dv)[0] == b[0];
      assert ta == tb;
      assert a[0] == b[0];
      forall t
        ensures DatedAt(a[1..], t, dv) == DatedAt(b[1..], t, dv)
      {
        var h := if dv(a[0].date) == t then [a[0]] else [];
        assert DatedAt(a, t, dv) == h + DatedAt(a[1..], t, dv);
        assert DatedAt(b, t, dv) == h + DatedAt(b[1..], t, dv);
        assert DatedAt(a[1..], t, dv) == DatedAt(a, t, dv)[|h|..];
        assert DatedAt(b[1..], t, dv) == DatedAt(b, t, dv)[|h|..];
      }
      SortUnique(a[1..], b[1..], dv);
      assert a == [a[0]] + a[1..];
      assert b == [b[0]] + b[1..];
    }
  }

  /** The sorted list meets both halves of the characterisation. */
  lemma SortMeetsOrder(s: seq<Article>, dv: DateValue)
    ensures NewestFirst(SortByDate(s, dv), dv)
    ensures SameAtEveryDate(SortByDate(s, dv), s, dv)
  {
    SortSorted(s, dv);
    forall t
      ensures DatedAt(SortByDate(s, dv), t, dv) == DatedAt(s, t, dv)
    {
      SortStable(s, t, dv);
    }
  }

  /**
   * The stable sort's result is characterised without reference to how it
   * is computed: `r` is the sorted order of `s` exactly when `r` is newest
   * first and keeps, for every timestamp, the articles of `s` with that
   * timestamp in their order in `s`.
   */
  lemma SortCharacterized(s: seq<Article>, r: seq<Article>, dv: DateValue)
    ensures r == SortByDate(s, dv) <==> NewestFirst(r, dv) && SameAtEveryDate(r, s, dv)
  {
    var sorted := SortByDate(s, dv);
    SortMeetsOrder(s, dv);
    if NewestFirst(r, dv) && SameAtEveryDate(r, s, dv) {
      forall t
        ensures DatedAt(r, t, dv) == DatedAt(sorted, t, dv)
      {
        assert DatedAt(r, t, dv) == DatedAt(s, t, dv);
      }
      SortUnique(r, sorted, dv);
    }
  }

  /** The `map(url => feed.fetchRSSFeed(url))` step: one article list per saved URL. */
  function FeedsOf(b: FeedClient.Browser, urls: seq<string>): seq<seq<Article>>
  {
    seq(|urls|, k requires 0 <= k < |urls| => FeedClient.FetchRSSFeed(b, urls[k]))
  }

  /** The articles `renderArticles` shows for the saved URLs, in display order. */
  function Rendered(b: FeedClient.Browser, urls: seq<string>): seq<Article>
  {
    SortByDate(Flatten(FeedsOf(b, urls)), b.dateValue)
  }

  /** The shown articles are all the fetched ones, each once, newest first. */
  lemma RenderedIsSortedMerge(b: FeedClient.Browser, urls: seq<string>)
    ensures NewestFirst(Rendered(b, urls), b.dateValue)
    ensures multiset(Rendered(b, urls)) == multiset(Flatten(FeedsOf(b, urls)))
  {
    SortSorted(Flatten(FeedsOf(b, urls)), b.dateValue);
    SortPermutation(Flatten(FeedsOf(b, urls)), b.dateValue);
  }

  /**
   * The values `createArticle` writes into one row. `${image_url}` with no
   * image writes `undefined`; `alternate` is the `alternate-color` class.
   */
  datatype Row = Row(
    feedName: string,
    title: string,
    date: string,
    url: string,
    description: string,
    imageSrc: string,
    alternate: bool)

  /** Template text for an interpolated `undefined`. */
  const Undefined: string := "undefined"

  /** `createArticle(article.feed, …, index)`. */
  function ArticleRow(a: Article, index: nat): Row
  {
    Row(a.feed, a.title, a.date, a.url, a.description,
        if a.imageUrl.Some? then a.imageUrl.value else Undefined,
        index % 2 == 0)
  }

  /** The rows the `forEach` over the sorted articles appends, in order. */
  function RowsOf(articles: seq<Article>): seq<Row>
  {
    seq(|articles|, i requires 0 <= i < |articles| => ArticleRow(articles[i], i))
  }

  lemma RowAt(articles: seq<Article>, i: nat)
    requires i < |articles|
    ensures |RowsOf(articles)| == |articles| && RowsOf(articles)[i] == ArticleRow(articles[i], i)
  {
  }

  /** Rows alternate their styling, starting with a styled row. */
  lemma RowsAlternate(articles: seq<Article>)
    ensures |RowsOf(articles)| == |articles|
    ensures articles != [] ==> RowsOf(articles)[0].alternate
    ensures forall i :: 0 <= i < |articles| - 1 ==> RowsOf(articles)[i].alternate != RowsOf(articles)[i + 1].alternate
  {
  }

  /** Row `i` shows article `i` of the sorted list; an article without an image shows `undefined` as its image source. */
  lemma RowsShowArticles(articles: seq<Article>, i: nat)
    requires i < |articles|
    ensures var row, a := RowsOf(articles)[i], articles[i];
      && row.feedName == a.feed && row.title == a.title && row.date == a.date
      && row.url == a.url && row.description == a.description
      && (a.imageUrl.None? ==> row.imageSrc == Undefined)
      && (a.imageUrl.Some? ==> row.imageSrc == a.imageUrl.value)
      && (row.alternate <==> i % 2 == 0)
  {
  }

  /** Of two articles, the newer is shown first whatever the merged order. */
  lemma NewerShownFirst(a: Article, b: Article, dv: DateValue)
    requires dv(a.date) > dv(b.date)
    ensures SortByDate([a, b], dv) == [a, b]
    ensures SortByDate([b, a], dv) == [a, b]
  {
    assert [a, b][..1] == [a];
    assert [b, a][..1] == [b];
    assert SortByDate([a], dv) == [a] by { assert [a][..0] == []; }
    assert SortByDate([b], dv) == [b] by { assert [b][..0] == []; }
    assert Insert([b], a, dv) == [a, b];
    assert Insert([a], b, dv) == [a] + Insert([], b, dv);
  }

  /** Articles with the same timestamp keep their merged order. */
  lemma TiesKeepOrder(a: Article, b: Article, dv: DateValue)
    requires dv(a.date) == dv(b.date)
    ensures SortByDate([a, b], dv) == [a, b]
  {
    assert [a, b][..1] == [a];
    assert SortByDate([a], dv) == [a] by { assert [a][..0] == []; }
    assert Insert([a], b, dv) == [a] + Insert([], b, dv);
  }
}
