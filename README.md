# simplefeed reader core, in Dafny

simplefeed is a small browser RSS reader written as one script, `script.js`.
The user keeps a list of feed URLs. The list is saved in `localStorage`. The
page fetches every feed through a CORS proxy, turns each `<item>` into an
article, merges all articles newest first and shows them as alternately
styled table rows.

This project models the parts of `script.js` that decide things:

- **`Text`**: the JavaScript built-ins the script leans on. These are `\w`,
  `capitalizeString`, `trim`, the ASCII part of `toLowerCase`, and `includes`.
- **`Escape`**: the seven-step replacement chain of `normalize`, with `&`
  first. Proved: the chain is undone by decoding the entities in reverse
  order. Its output has no raw `<`, `>`, `"`, `'`, `(` or `)`, and every `&`
  in it starts an entity.
- **`FeedParser`**: the item-to-article mapping of `fetchRSSFeed`, over an
  abstract parsed document. Every DOM lookup is an `Option`. A missing
  element makes the whole feed yield `[]` (all or nothing).
- **`UrlPattern`**: `domainPattern`, written out as a hand-made matcher.
  Proved equal, in both directions, to a grammar of its parts (scheme,
  labels, path).
- **`FeedClient`**: `fetchRSSFeed`, `validateFeed` and `validateRSSURL`,
  over a network given as a function from URL to response.
- **`Aggregate`**: flattening, the stable newest-first sort, and the rows
  `createArticle` produces. The sort is `SortByDate`. It is proved to be
  the only order that is newest first and keeps equal timestamps in merged
  order.
- **`Reader`**: a class holding the page state. This covers `feedURLs`, the
  stored copy, both tables, the input box and the modal. Its methods are
  `loadURLs`, `saveURLs`, `renderArticles`, `populateTable`, `deleteURL` and
  the click handlers, with `splice` under JavaScript's index rules.

Where the intended behaviour of the reader and `script.js` differ, the
model follows `script.js`:

- `renderArticles` appends rows to the article table (`innerHTML +=`) and
  never clears it, so every repopulation adds the whole list again.
- The proxied URL is the proxy prefix plus the URL, with no
  percent-encoding.
- `fetchRSSFeed` does not look at the response status or content type:
  `FeedClient.FetchIgnoresStatus` states this.
- There is no 180-character truncation, no per-item filter and no polling.

Inputs the browser supplies are parameters (`FeedClient.Browser`):

- the network;
- the text a `div` shows once markup is assigned to its `innerHTML`;
- the timestamp `new Date(s)` gives for a date string.

## Model

| member | source | states |
|---|---|---|
| Text.Capitalize | script.js:2-4 | same length; the first character upper-cased, every later one unchanged; `""` for `""` |
| Text.CapitalizeIdempotent | script.js:2-4 | capitalising a capitalised string changes nothing |
| Text.LeadingWordRun | script.js:63 | the match of `/^[\w]+/`: a prefix of the input, all word characters, followed by a non-word character or the end |
| Text.Trim | script.js:10 | the result neither starts nor ends with JavaScript white space, and the input is the result with only white space before and after it |
| Text.TrimIdempotent | script.js:10 | trimming twice is trimming once |
| Text.ContainsAt | script.js:109 | `includes` holds exactly when the pattern occurs at some index |
| FeedParser.FirstUrl | script.js:67 | no image exactly when no descendant has a `url` attribute; otherwise the attribute of the first descendant in document order that has one |
| FeedParser.FeedName | script.js:58-63 | a name exists exactly when the first title starts with a word character; it is that word run, capitalised, maximal, all word characters, first one not lower case |
| Escape.EscapeIsExpand | script.js:11-17 | the chain writes each special character as its entity and leaves every other character alone; earlier entities are untouched by later replacements |
| Escape.EscapeSafe | script.js:11-17 | the escaped text has no raw `<`, `>`, `"`, `'`, `(`, `)`, and every `&` in it starts one of the seven entities |
| Escape.EscapePlain | script.js:11-17 | text with no special character passes through unchanged |
| Escape.UnescapeEscape | script.js:11-17 | decoding the seven entities in reverse order gives back exactly the input of the chain |
| Escape.EscapeInjective | script.js:11-17 | two texts with the same escaped form are equal |
| Escape.NormalizeRoundTrip | script.js:6-17 | decoding `normalize`'s output gives back the trimmed, stripped text |
| FeedParser.ExtractComplete | script.js:57-70 | when every lookup succeeds: one article per item, in document order, each with its item's title, date, link, normalised description, first `url` attribute, and the document's capitalised leading word run as feed name |
| FeedParser.ExtractAllOrNothing | script.js:53-74 | the result is empty or has one article per item; a missing first title, a first title with no leading word character, or any item without title, pubDate, link or description gives `[]` |
| FeedParser.ExtractedDescriptionsSafe | script.js:66 | every extracted description is escaped text: no raw specials, every `&` an entity |
| FeedClient.FetchAllOrNothing | script.js:51-75 | a rejected request gives `[]`; otherwise all of the body's articles or none of them |
| FeedClient.FetchIgnoresStatus | script.js:52-56 | two responses with the same body give the same articles, whatever their status and content type |
| FeedClient.ValidateFeed | script.js:78-89 | the feed is accepted exactly when the proxied request is answered with `ok` and a Content-Type containing `xml`; a rejected request is not accepted |
| FeedClient.GateDecidesRequest | script.js:107-113 | a URL failing the syntactic gate is refused whatever the network says; one passing it is decided by `validateFeed` alone |
| FeedClient.UrlGateMeaning | script.js:108-109 | the gate passes exactly when the URL is built from the pattern's parts and, lower-cased, contains `rss` or `feed` |
| FeedClient.ValidateRSSURLMeaning | script.js:107-113 | `validateRSSURL` holds exactly when the gate passes and the proxied response is `ok` with an `xml` Content-Type |
| FeedClient.NotAUrl | script.js:108-112 | `not a url` is refused, for every network |
| FeedClient.FeedUrlReachesRequest | script.js:108-112 | `https://example.com/rss` passes the gate, so the network's answer alone decides it |
| UrlPattern.ComposeMatches | script.js:108 | every optional scheme, two or more labels and optional path joined together matches `domainPattern` |
| UrlPattern.MatchesIsComposed | script.js:108 | every string matching `domainPattern` is built that way |
| UrlPattern.DomainPatternIff | script.js:108 | `domainPattern` matches exactly the strings built from its parts |
| UrlPattern.MatchesIsAscii | script.js:108-109 | a matching URL is ASCII throughout, so ASCII lower-casing is its `toLowerCase` |
| Aggregate.FlattenBlock | script.js:120 | each feed's articles appear in the merged list as one block, feeds in URL order |
| Aggregate.FlattenMember | script.js:120 | an article is in the merged list exactly when it is in one of the feeds |
| Aggregate.SortSorted | script.js:120 | the sorted list is newest first |
| Aggregate.SortPermutation | script.js:120 | the sorted list is a permutation of the merged list |
| Aggregate.SortStable | script.js:120 | at every timestamp, the articles carrying it keep their merged order |
| Aggregate.SortUnique | script.js:120 | two newest-first lists holding the same articles in the same order at every timestamp are equal |
| Aggregate.SortCharacterized | script.js:120 | a list is the sort result exactly when it is newest first and stable with respect to the merged list |
| Aggregate.NewerShownFirst | script.js:120 | of two articles the newer comes first, in either merged order |
| Aggregate.TiesKeepOrder | script.js:120 | two articles with equal timestamps keep their merged order |
| Aggregate.RenderedIsSortedMerge | script.js:116-120 | the rendered articles are all fetched articles of all saved URLs, each once, newest first |
| Aggregate.RowsAlternate | script.js:121-138 | one row per article; the first row is styled, and consecutive rows differ in styling |
| Aggregate.RowsShowArticles | script.js:121-155 | row `i` shows article `i`'s fields, `undefined` as image source when it has none, and is styled exactly when `i` is even |
| Reader.SpliceInside | script.js:170 | for `0 <= i < n`, `splice(i, 1)` leaves `s[..i] + s[i+1..]`, one shorter, the removed element being `s[i]` |
| Reader.SpliceNegative | script.js:170 | a negative index counts from the end |
| Reader.SpliceOutside | script.js:170 | an index at or past the end removes nothing; one before the start removes the first element |
| Reader.SpliceExample | script.js:169-171 | `["a","b","c"]` at index 1 becomes `["a","c"]` |
| Reader.DeleteButtonRemovesItsRow | script.js:160-170 | the delete button of URL row `i` removes exactly URL `i` |
| FeedClient.FetchRSSFeed | script.js:52-75 | no contract of its own; its meaning is stated by `FeedClient.FetchAllOrNothing` and `FeedClient.FetchIgnoresStatus` |
| FeedClient.PassesUrlGate | script.js:108-109 | no contract of its own; its meaning is stated by `FeedClient.UrlGateMeaning` |
| FeedClient.ValidateRSSURL | script.js:107-113 | no contract of its own; its meaning is stated by `FeedClient.ValidateRSSURLMeaning` and `FeedClient.GateDecidesRequest` |
| FeedParser.ArticleOf | script.js:61-69 | no contract of its own; `FeedParser.ExtractComplete` states the article a complete item gives |
| FeedParser.ArticlesOf | script.js:61-70 | no contract of its own; `FeedParser.ExtractAllOrNothing` states that any failed item lookup fails the whole map |
| FeedParser.ExtractArticles | script.js:57-73 | no contract of its own; its meaning is stated by `FeedParser.ExtractComplete` and `FeedParser.ExtractAllOrNothing` |
| Escape.ReplaceAll | script.js:11-17 | no contract of its own; one `replace(/c/g, e)` step, whose composition `Escape.EscapeIsExpand` characterises |
| Escape.Escape | script.js:11-17 | no contract of its own; its meaning is stated by `Escape.EscapeIsExpand`, `Escape.UnescapeEscape` and `Escape.EscapeSafe` |
| Escape.Normalize | script.js:6-17 | no contract of its own; its meaning is stated by `Escape.NormalizeRoundTrip` |
| UrlPattern.MatchesDomainPattern | script.js:108 | no contract of its own; its meaning is stated by `UrlPattern.DomainPatternIff` |
| Text.AsciiLower | script.js:109 | same length; each character is lower-cased if it is an ASCII capital and left alone otherwise |
| Text.Contains | script.js:109 | no contract of its own; its meaning is stated by `Text.ContainsAt` |
| Aggregate.Flatten | script.js:120 | no contract of its own; its meaning is stated by `Aggregate.FlattenBlock` and `Aggregate.FlattenMember` |
| Aggregate.SortByDate | script.js:120 | no contract of its own; its meaning is stated by `Aggregate.SortCharacterized` |
| Aggregate.Rendered | script.js:117-120 | no contract of its own; its meaning is stated by `Aggregate.RenderedIsSortedMerge` |
| Aggregate.ArticleRow | script.js:136-155 | no contract of its own; its meaning is stated by `Aggregate.RowsShowArticles` |
| Aggregate.RowsOf | script.js:121-131 | no contract of its own; its meaning is stated by `Aggregate.RowsShowArticles` and `Aggregate.RowsAlternate` |
| Reader.SpliceOne | script.js:170 | no contract of its own; its meaning is stated by `Reader.SpliceInside`, `Reader.SpliceNegative` and `Reader.SpliceOutside` |
| Reader.Loaded | script.js:181 | no contract of its own; `Reader.Reader.LoadURLs` states the list it gives |
| Reader.UrlRowsOf | script.js:160-165 | no contract of its own; its meaning is stated by `Reader.DeleteButtonRemovesItsRow` |
| Reader.Reader.constructor | script.js:103 | the page starts with an empty in-memory list over whatever storage holds |
| Reader.Reader.LoadURLs | script.js:179-182 | the list becomes the stored list, or `[]` when nothing is stored; nothing else changes |
| Reader.Reader.SaveURLs | script.js:175-177 | storage is overwritten with the whole list; nothing else changes |
| Reader.Reader.AppendArticleRows | script.js:121-131 | the article table gains one row per article, in order, after its existing rows |
| Reader.Reader.RenderArticles | script.js:115-134 | reloads the list, then appends the rows of the sorted merge of all its feeds |
| Reader.Reader.PopulateTable | script.js:158-167 | reloads the list, rewrites the URL table from it, then renders the articles |
| Reader.Reader.DeleteURL | script.js:169-173 | the list and the stored list both become the spliced list; the tables are repopulated from it; the input and modal are unchanged |
| Reader.Reader.AddURL | script.js:190-194 | the URL is appended, the whole list saved, the tables repopulated |
| Reader.Reader.SaveClicked | script.js:185-205 | empty input changes nothing; otherwise the input is cleared, an invalid URL raises the alert and changes nothing else, and a valid one is appended and saved; in sync with storage, nothing saved earlier is lost |
| Reader.Reader.AddClicked | script.js:207-210 | toggles the modal and populates both tables |
| Reader.Reader.WindowClicked | script.js:212-216 | a click on the modal backdrop toggles the modal; nothing else changes |

## Left out

- Markup stripping (`innerHTML` then `textContent`, script.js:7-9) is the browser's HTML parser. It is the input `Browser.stripMarkup`.
- `DOMParser` (script.js:56) is the browser's XML parser. The parsed feed is the abstract `FeedParser.Document`: the first `<title>` text, and per item the text of its first `title`, `pubDate`, `link` and `description` and the `url` attributes of its descendants.
- `fetch`, `response.text()` and the headers are network I/O. They are one function `FeedClient.Network`, which answers the same request the same way every time. A rejected `fetch` is `None`.
- `new Date(s)` is the input `Browser.dateValue` with integer timestamps. An invalid date (NaN) makes the comparator inconsistent, and that case is not modelled.
- `async`/`await` and `Promise.all` are concurrency. In `script.js` the save handler resumes after `await validateRSSURL(text)` (script.js:189), and each render appends its rows in a `.then` callback (script.js:119-131) that runs after `populateTable` and the handler have returned, so renders can overlap and their rows can arrive in either order. The model assumes instead that each handler, including the rows its render appends, completes before the next event; interleaved renders are not modelled.
- `JSON.stringify`/`JSON.parse` and the `stored ?` test are serialisation. The stored value is the list itself, or `None` when never written. The script never writes an empty string.
- The `catch` of the save handler (script.js:199-203) is not modelled. `validateRSSURL` never throws, so it is reached only when storage or parsing fails inside the `try`: `localStorage.setItem` in `saveURLs` (a full quota, blocked storage), `getItem` or `JSON.parse` in `loadURLs`, or `.map` on a stored value that is not an array. The model treats persistence as an overwrite that always succeeds and the stored value as a list, so that path does not arise.
- `console.error` logging is not modelled, and the alert text is not modelled: `SaveClicked` only reports whether the alert appears.
- The HTML text of the templates (script.js:137-155, 160-164) is not modelled. Rows are modelled by the values they interpolate, and the modal's CSS class is a boolean.
- The `Feed` class (script.js:21-34) and `cachedArticles` (script.js:104) are never used by the rest of the script, so they are not modelled.
- Text.Capitalize: upper-cases ASCII letters only, where `toUpperCase` covers all of Unicode. It is applied only to a `\w` run, which is ASCII, so the feed name is exact.
- Text.AsciiLower: lower-cases ASCII letters only. The gate tests `domainPattern` first, and a matching URL is ASCII (`UrlPattern.MatchesIsAscii`), so the gate's outcome is exact.
- Truncation to 180 characters, the "undefined"/"null" item filter, polling and percent-encoding of the proxied URL do not appear in script.js, so they are not modelled.
