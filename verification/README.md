# webCrawler crawl coordinator, modelled in Dafny

This project models the core of `webCrawler`, a crawler that starts from one
URL. It follows same-origin anchor links and collects the asset references
of each page: stylesheets, scripts, images and inline-style backgrounds.
The crawl is split between two kinds of process. A master process (the
crawler manager) owns the frontier and the visited map. Cluster workers
fetch and parse pages and report back over IPC messages.

The model is pure: immutable datatypes and functions, with lemmas relating
them.

- `Optional` holds the `Option` type. `None` stands for JavaScript's
  `undefined`.
- `JsStrings` models `indexOf(sep) > -1`, `split(sep)[0]` and
  `split(sep)[1]`, plus the ASCII case folding of the `i` regular-expression
  flag.
- `Messages` holds the page report and the `{type, data}` messages.
- `CrawlerManager` covers the following:
  - `_clearLink`;
  - the body of the `cluster.on('message')` handler, as one step from the
    manager state (`pagesToVisit`, `pagesVisited`, `idleWorkers`) and one
    message to the next state and the `crawlPage` messages it sends;
  - runs of that step over any interleaving of worker messages.
- `CrawlerWorker` covers the following:
  - the extension regular expressions;
  - `_verifyAttrValue`;
  - `_crawlOverElement` and its four wrappers;
  - the inline-style background scan;
  - `_crawlPage`;
  - the message `crawlPage` ends with.
- `Protocol` covers how a worker answers a `crawlPage`, and what the
  manager does with `firstTask` and with failed crawls.
- `Util` models `extractHostname`.
- `Cli` models the `process.argv` fold of `src/index.js` and its refusal to
  start without a URL.

Foreign code enters as the fields of `CrawlerWorker.Env`:
- `url.resolve`;
- the WHATWG `URL` constructor (`None` when it throws);
- cheerio's `.css`.

The HTTP request enters as a `fetch` function parameter. The HTML parser's
output is a `Document`: a sequence of elements, each with a tag and its
attributes in order.

The model keeps these behaviours of the code:
- The manager ignores `firstTask`, so workers announcing themselves never
  start the crawl (`Protocol.StartupsAloneNeverStartTheCrawl`).
- Every `crawlPage` goes to the worker that just reported. Shifted idle
  workers receive nothing.
- The assignment loop runs until both the idle list and the frontier are
  empty. When the idle list is the longer of the two, it sends `undefined`
  URLs.
- The frontier is popped from its end.
- There is no termination detection and no shutdown message.
- A failed crawl is reported as a `nextTask` without a page, not as a
  message of its own.

## Model

| member | source | states |
|---|---|---|
| JsStrings.SplitSecond | src/index.js:9 | `s.split(sep)[1]` is `undefined` exactly when `sep` does not occur in `s`; otherwise it is the text from right after the first `sep` to the next `sep` or the end, and holds no `sep` |
| CrawlerManager.Init | src/crawler/crawlerManager.js:11-14 | the start state queues the starting URLs, has no idle worker and records nothing in `pagesVisited`; it meets the invariant `Consistent` exactly when there are no starting URLs |
| CrawlerManager.ClearLink | src/crawler/crawlerManager.js:87-95 | the result is a prefix of the link with no `#`, and no `?` unless query strings are crawled; it stops only at a `#`, or at a `?` when query strings are cut |
| CrawlerManager.ClearLinkFixedPoints | src/crawler/crawlerManager.js:87-95 | a link is left unchanged exactly when it has no `#` and either query strings are crawled or it has no `?` |
| CrawlerManager.ClearLinkIdempotent | src/crawler/crawlerManager.js:87-95 | normalising a normalised link changes nothing |
| CrawlerManager.ClearedLinksMembers | src/crawler/crawlerManager.js:42-44 | the set of normalised links holds exactly the normalised form of each reported link |
| CrawlerManager.Dedup | src/crawler/crawlerManager.js:42-52 | the fold adds every normalised link as a key, keeps every existing entry, and gives each new key the placeholder `true` |
| CrawlerManager.DedupCollectsOnlyUnseen | src/crawler/crawlerManager.js:46-51 | every collected link is a normalised link that was not yet a key of `pagesVisited` |
| CrawlerManager.DedupCollectsAllUnseen | src/crawler/crawlerManager.js:46-51 | every normalised link that was not yet a key is collected |
| CrawlerManager.DedupCollectsOnce | src/crawler/crawlerManager.js:46-51 | no link is collected twice, even when reported twice or under two spellings that normalise alike |
| CrawlerManager.Merge | src/crawler/crawlerManager.js:34-55 | the report is recorded under the page url; the frontier grows by exactly the unseen normalised links, once each; without a page nothing changes |
| CrawlerManager.Drain | src/crawler/crawlerManager.js:62-75 | the loop sends max(idle, frontier) messages, all to the sender, carrying the frontier from its end and then `undefined` |
| CrawlerManager.Step | src/crawler/crawlerManager.js:30-80 | only `nextTask` is handled; after merging, an empty frontier makes the sender idle; otherwise frontier and idle list are emptied and the frontier is sent in reverse to the sender |
| CrawlerManager.DrainSendsFrontierReversed | src/crawler/crawlerManager.js:63-72 | the URLs sent are the frontier reversed, with the `undefined`s dropped |
| CrawlerManager.MergeKeepsConsistent | src/crawler/crawlerManager.js:34-55 | merging keeps the frontier duplicate-free, registered in `pagesVisited` and disjoint from the URLs already handed out |
| CrawlerManager.StepKeepsConsistent | src/crawler/crawlerManager.js:30-80 | one handler run hands out only URLs never handed out before, each once, and keeps that bookkeeping |
| CrawlerManager.StartingUrlHandedOutTwice | src/crawler/crawlerManager.js:11-75 | from the start state with one starting URL `u` (no `#`, no `?`), a report of another page linking to `u` hands `u` to the sender twice |
| CrawlerManager.Run | src/crawler/crawlerManager.js:30-31 | a sequence of messages none of which is `nextTask` leaves the state unchanged and sends nothing |
| CrawlerManager.RunAppend | src/crawler/crawlerManager.js:11-80 | handling two batches of messages one after the other is handling them together: the handler keeps no state besides `pagesToVisit`, `pagesVisited` and `idleWorkers` |
| CrawlerManager.RunAssignsEachUrlOnce | src/crawler/crawlerManager.js:30-80 | over any interleaving of worker messages, from a consistent state no URL is handed out twice |
| CrawlerManager.SingleLinkReport | src/crawler/crawlerManager.js:40-75 | from a state with an empty frontier, nothing in `pagesVisited` and no idle worker, a page reporting one link whose normalised form differs from the page URL hands that normalised form, and nothing else, to the reporting worker |
| CrawlerManager.QueryFlagIgnoredAsWritten | src/crawler/crawlerManager.js:44 | with the flag read as written, a manager configured to crawl query strings still hands out the link with its query string cut |
| CrawlerManager.StepAsWritten | src/crawler/crawlerManager.js:30-80 | whatever flag the manager is configured with, every key a report adds to `pagesVisited`, other than the page URL, is free of `?` |
| CrawlerManager.QueryFlagHonoured | src/crawler/crawlerManager.js:8 | with the configured flag honoured, the same report hands out the link with its query string |
| CrawlerWorker.FilterIsRegExpTest | src/crawler/crawlerWorker.js:55-87 | a regular-expression test of `/.*(w1\|...)/i` matches exactly the values that contain one of the words, ASCII case ignored; `/.*/i` matches everything |
| CrawlerWorker.VerifyAttrValue | src/crawler/crawlerWorker.js:353-363 | the result is null exactly for a falsy value or one the filter rejects; a value starting with `http` (any case) is kept; any other is resolved against `href` |
| CrawlerWorker.ConsideredValues | src/crawler/crawlerWorker.js:321-326 | with an attribute name, one value: that attribute's, or `undefined` exactly when no attribute has the name; without a name, every attribute value of the element, in order |
| CrawlerWorker.AttrValue | src/crawler/crawlerWorker.js:322 | a found value is the value of an attribute with that name; an absent one means no attribute has that name |
| CrawlerWorker.ValidValues | src/crawler/crawlerWorker.js:328-336 | no more results than values; each result is non-empty and is what `_verifyAttrValue` gives for one of the values; every truthy `_verifyAttrValue` of a value is among the results |
| CrawlerWorker.ValidValuesSingle | src/crawler/crawlerWorker.js:328-336 | one value contributes exactly its `_verifyAttrValue` when that is truthy, and nothing otherwise |
| CrawlerWorker.ValidValuesAppend | src/crawler/crawlerWorker.js:328-336 | the results of a concatenation are the results of each part in order |
| CrawlerWorker.CrawlOverElement | src/crawler/crawlerWorker.js:315-340 | every result comes from an element with the selector's tag; with a named attribute, there is at most one result per such element |
| CrawlerWorker.CrawlOverElementSingle | src/crawler/crawlerWorker.js:315-340 | one element contributes exactly the valid values of its considered attributes when its tag is the selector, and nothing otherwise |
| CrawlerWorker.CrawlOverElementComplete | src/crawler/crawlerWorker.js:315-340 | every valid value of every element with the selector's tag is among the results |
| CrawlerWorker.ScanOrigin | src/crawler/crawlerWorker.js:315-340 | every result is `_verifyAttrValue` of one considered attribute of an element with the selector's tag |
| CrawlerWorker.CrawlOverElementAppend | src/crawler/crawlerWorker.js:318-337 | the scan distributes over concatenation of documents: results follow document order |
| CrawlerWorker.CrawlOverLinkElements | src/crawler/crawlerWorker.js:153-155 | at most one asset per `<link>`; each is its `href` as `_verifyAttrValue` with the content filter gives it |
| CrawlerWorker.CrawlOverScriptElements | src/crawler/crawlerWorker.js:165-167 | at most one asset per `<script>`; each is its `src` as `_verifyAttrValue` with the `js` filter gives it |
| CrawlerWorker.CrawlOverAnchorElements | src/crawler/crawlerWorker.js:177-179 | at most one link per `<a>`; each is its `href`, absolute or resolved, with any value accepted |
| CrawlerWorker.CrawlOverImgElements | src/crawler/crawlerWorker.js:189-191 | each asset is the `_verifyAttrValue` with the image filter of some attribute value of some `<img>` |
| CrawlerWorker.ScriptAbsoluteSrcKept | src/crawler/crawlerWorker.js:165-167 | a `<script>` with an absolute `.js` `src` yields that `src` unchanged |
| CrawlerWorker.LinkRelativeHrefResolved | src/crawler/crawlerWorker.js:153-155 | a `<link>` with a relative `.css` `href` yields it resolved against the page href |
| CrawlerWorker.ImgAnyAttributeCaptured | src/crawler/crawlerWorker.js:321-326 | an `<img>` image value in an attribute other than `src` is captured, because every attribute is scanned |
| CrawlerWorker.StripBackground | src/crawler/crawlerWorker.js:95 | the clean-up never lengthens the text |
| CrawlerWorker.StripBackgroundRemovesQuotes | src/crawler/crawlerWorker.js:95 | after the clean-up no quote or closing parenthesis is left |
| CrawlerWorker.StripBackgroundDropsTrailing | src/crawler/crawlerWorker.js:95 | a trailing quote or parenthesis is removed without affecting the rest |
| CrawlerWorker.StripBackgroundKeepsClean | src/crawler/crawlerWorker.js:95 | text with no quote, parenthesis or `url(` is left unchanged |
| CrawlerWorker.StripBackgroundUnwrapsUrl | src/crawler/crawlerWorker.js:95 | `url(x)`, `url("x")` and `url('x')` come out as `x` |
| CrawlerWorker.BackgroundImage | src/crawler/crawlerWorker.js:204-213 | a truthy `background-image` is taken as it is; otherwise a truthy `background` gives its `url(` argument (`UrlArgument`), a space-free text that starts right after its first `url(`; otherwise the falsy `background` is kept |
| CrawlerWorker.UrlArgument | src/crawler/crawlerWorker.js:209-212 | the text starts right after the first `url(`, holds no space and no start of `url(`, and ends at the end of the value, where the next `url(` starts, or at a space |
| CrawlerWorker.StyleAsset | src/crawler/crawlerWorker.js:203-221 | an element yields an asset exactly when it has a `style` attribute, a truthy background and a truthy `_verifyAttrValue` of the cleaned background against the page origin |
| CrawlerWorker.CrawlOverElementsWithStyleAttribute | src/crawler/crawlerWorker.js:200-225 | at most one asset per element; every asset is the `StyleAsset` of some element, and every element's `StyleAsset` is among them |
| CrawlerWorker.StyleScanSingle | src/crawler/crawlerWorker.js:203-221 | one element contributes exactly its `StyleAsset`, if it has one |
| CrawlerWorker.StyleScanAppend | src/crawler/crawlerWorker.js:200-225 | the background scan distributes over concatenation of documents |
| CrawlerWorker.BackgroundImageResolvedAgainstOrigin | src/crawler/crawlerWorker.js:204-219 | an inline `background-image: url("x")` with a relative `x` yields `x` resolved against the page origin |
| CrawlerWorker.IsSameOrigin | src/crawler/crawlerWorker.js:279-290 | a link that `new URL` cannot parse is not same-origin; a parsed link is same-origin exactly when its origin equals the page origin |
| CrawlerWorker.SameOriginLinks | src/crawler/crawlerWorker.js:277-291 | a link is kept exactly when it parses and has the page's origin; order is preserved, and a kept link appears as often as in the input |
| CrawlerWorker.CrawlPageDocument | src/crawler/crawlerWorker.js:264-300 | the report carries the page href, the link, script, image and background assets in that order, and exactly the same-origin anchor links, in document order and with their repetitions |
| CrawlerWorker.AnchorsAreNotAssets | src/crawler/crawlerWorker.js:273-276 | adding an unstyled anchor to a page leaves its assets unchanged |
| CrawlerWorker.CrawlPage | src/crawler/crawlerWorker.js:122-143 | every outcome sends a `nextTask`; it carries a page exactly when the URL parses and the response has status 200 |
| CrawlerWorker.CrawlNextPage | src/crawler/crawlerWorker.js:104-110 | a starting worker announces itself with a `firstTask`, not a `nextTask`, and reports no page |
| Protocol.Answer | src/crawler/crawlerWorker.js:374-378 | a worker answers a `crawlPage` with one `nextTask` from itself, with a page exactly when the crawl succeeded |
| Protocol.FirstTaskIgnored | src/crawler/crawlerManager.js:30-31 | a `firstTask` leaves the manager state unchanged and sends nothing |
| Protocol.StartupsAloneNeverStartTheCrawl | src/crawler/crawlerManager.js:11-31 | from the start state, any number of worker announcements hand out nothing |
| Protocol.FailedCrawlRecordsNothing | src/crawler/crawlerWorker.js:237-249 | a failed crawl leaves `pagesVisited` unchanged; the worker becomes idle, or is sent the whole frontier in reverse |
| Protocol.CrawledPageIsRecorded | src/crawler/crawlerManager.js:40-49 | a crawled page is recorded under its href; every other new key is a placeholder |
| Util.AfterScheme | src/util.js:10-12 | without `http` the text is empty; with `http` it is absent exactly when there is no `://`, and otherwise starts right after the first `://`, holds no `://` and ends at the end of the URL or where the next `://` starts |
| Util.AfterWww | src/util.js:14-16 | without `www` the text is kept; with `www` it is absent exactly when there is no `w.`, and otherwise starts right after the first `w.`, holds no `w.` and ends at the end of the input or where the next `w.` starts |
| Util.CutPath | src/util.js:18-20 | the result is the text up to its first `/` |
| Util.ExtractHostname | src/util.js:7-23 | without `http` the hostname is empty; with `http` but no `://` it throws; it returns exactly when both splits find their separator, and the hostname is then the text after `://` and after `w.`, cut at its first `/`; it holds no `/` and occurs in the URL |
| Util.ExtractHostnameThrows | src/util.js:10-16 | it throws exactly when the URL mentions `http` without `://`, or when the text after `://` mentions `www` without `w.` |
| Util.SchemeIsStripped | src/util.js:10-12 | after an `http` or `https` scheme, the text after `://` is taken |
| Util.WwwIsStripped | src/util.js:14-16 | a leading `www.` is cut off |
| Util.PathIsCut | src/util.js:18-20 | a path starting with `/` is cut off a host without `/` |
| Util.ExtractHostnameOfPlainUrl | src/util.js:7-23 | for `scheme://host/path`, with `path` empty or starting with `/`, no `/` in `host`, and no `www` or further `://` in `host` and `path`, the hostname is `host` |
| Util.ExtractHostnameOfWebUrl | src/util.js:7-23 | for `scheme://www.host/path`, with no further `://` or `w.` in host and path, the hostname is `host` |
| Util.AvenuecodeHostname | src/util.spec.js:8-22 | the hostname of `http://www.avenuecode.com/events` is `avenuecode.com`: present, non-empty, without `http://`, `www.` or `/` |
| Util.SchemelessUrlHasNoHostname | src/util.js:8-12 | a URL without `http` has the empty hostname even when it names one |
| Util.HttpWithoutSeparatorThrows | src/util.js:10-14 | `httpexample.com` makes `extractHostname` throw |
| Cli.ParamStep | src/index.js:8-12 | an argument with `url=` sets the URL to the text that starts right after the first `url=` and ends at the end or at the next `url=`, and leaves the flag; one without `url=` leaves the URL; with `query=` and no `url=`, the flag is true exactly when `true` follows the first `query=` and is followed by the end or another `query=`; any other changes nothing |
| Cli.QueryIsTrue | src/index.js:11 | `split('query=')[1] === 'true'` holds exactly when `true` follows the first `query=` and is followed by the end or another `query=` |
| Cli.FoldArgs | src/index.js:7-15 | arguments without `url=` leave the URL as it started; arguments with neither key leave both parameters |
| Cli.FoldArgsLastWins | src/index.js:7-15 | each parameter takes the value of the last argument that sets it, or its starting value |
| Cli.ParseArgs | src/index.js:7-15 | the URL is the last `url=` value, and the query flag is true exactly when the last `query=` value is `true` |
| Cli.Run | src/index.js:17-23 | the program refuses to start exactly when no URL was given or it is empty; otherwise it starts from that URL with the query flag |
| Cli.LaterUrlOverrides | src/index.js:8-9 | a later `url=` argument overrides every earlier one |
| Cli.QueryDefaultsToFalse | src/index.js:10-15 | without a `query=` argument, query strings are cut |
| Cli.UrlArgumentStartsCrawl | src/index.js:7-23 | a final `url=<u>` with a non-empty `u` starts the crawl at `u` |
| Cli.EmptyUrlArgumentIsMissing | src/index.js:17-19 | `url=` with nothing after it counts as a missing URL |

## Findings

| source | as written | input that shows it | evidently intended | confidence | as-written member | corrected member |
|---|---|---|---|---|---|---|
| src/crawler/crawlerManager.js:44 | `_clearLink(link, this._crawlOverQueryStrings)` inside the `cluster` listener reads the flag from the `cluster` module, so it is `undefined`, which is falsy | a manager built with `{_crawlOverQueryStrings: true}` (line 98) gets a report with the one link `http://h/p?x=1` | the configured flag reaches `_clearLink`, and `http://h/p?x=1` is queued as it is | medium, not executed | CrawlerManager.QueryFlagIgnoredAsWritten | CrawlerManager.QueryFlagHonoured |

The rest of the model threads the configured flag through
`CrawlerManager.Step` as an explicit parameter. `CrawlerManager.StepAsWritten`
is the handler with the flag fixed to falsy.

## Left out

- Process plumbing is not modelled: `cluster.fork`, IPC delivery, `process.send`, logging, and the `from` field of messages. A message is modelled as its `type` and its optional page, delivered in an order chosen by the caller of `CrawlerManager.Run`.
- The HTTP request, cheerio and Node's URL functions are foreign code. They are parameters (`fetch`, `Env`), so only their use is modelled.
- The `null` response with no error in the `Request` callback is not modelled. Line 134 would throw reading `response.statusCode`; the model treats every non-error outcome as a response.
- `crawlOverElementsWithStyleAttribute` throws when `background-image` is falsy, `background` is truthy and `background` lacks `url(`. Such elements are excluded by the precondition `DocumentWellFormed`, not modelled as a crash.
- Attribute order is taken as given. JavaScript's `Object.keys` lists integer-like attribute names first. Duplicate attribute names do not occur, because the parser keeps one value per name.
- `pagesVisited` is modelled as a map. Keys that collide with `Object.prototype` members (`constructor`, `__proto__`) are not modelled. In the source they would read as truthy and be treated as seen.
- `new URL(undefined)` is modelled as the absent URL of a send. The worker answers it with an empty `nextTask`, as the source does.
- `src/crawler.js` is the earlier single-process crawler that `src/index.js` calls. It is not part of this model; `Cli.Run` stops at the parameters it would be given. `src/crawler/index.js` calls a manager method that does not exist (`initCrawlers`); it is not part of this model.
- Termination and shutdown are not modelled, because the source has neither.
- CrawlerManager.RunAssignsEachUrlOnce: proved from a state where every frontier URL is a key of `pagesVisited`. The source's start state keeps the starting URLs in the frontier without recording them (`CrawlerManager.Init`). A starting URL reported again as a link can therefore be queued and handed out a second time (`CrawlerManager.StartingUrlHandedOutTwice`).
- CrawlerWorker.StripBackground: its own contract states only that the text does not grow; what it removes and keeps is stated by the `StripBackground…` lemmas.
- CrawlerManager.Drain: the idle worker shifted on each loop pass is discarded, as in the source. The model keeps no trace of which idle workers were dropped.
- Util.ExtractHostname: a `url` that is not a string is not modelled, so the result is `None` only for the two `split(...)[1]` failures.
