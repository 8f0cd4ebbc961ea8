/** The conversation between the manager and its workers: a worker announces
    itself with `firstTask`, answers every `crawlPage` with one `nextTask`,
    and the manager's handler reacts to those. */
module Protocol {
  import opened Optional
  import opened Messages
  import opened CrawlerWorker
  import opened CrawlerManager

  /** The worker's `process.on('message')` listener: a `crawlPage` carrying
      `url` is answered by `crawlPage(url)`, whose message reaches the
      manager as an event from that worker. */
  function Answer(send: Send, fetch: string -> FetchOutcome, env: Env): (r: Event)
    requires Fetched(send.url, fetch, env) ==> DocumentWellFormed(fetch(send.url.value).body, env)
    ensures r.sender == send.recipient
    ensures r.msg.kind == NextTask
    ensures r.msg.page.Some? <==> Fetched(send.url, fetch, env)
  {
    Event(send.recipient, CrawlPage(send.url, fetch, env))
  }

  /** The manager ignores the `firstTask` a worker sends when it comes up. */
  lemma FirstTaskIgnored(s: State, worker: WorkerId, crawlOverQueryStrings: bool)
    ensures Step(s, worker, CrawlNextPage(), crawlOverQueryStrings) == StepResult(s, [])
  {
  }

  /** Workers coming up announce themselves with `firstTask` only.  */
  ghost predicate AllStartups(events: seq<Event>)
  {
    forall k :: 0 <= k < |events| ==> events[k].msg == CrawlNextPage()
  }

  /** However many workers come up, their announcements alone change nothing
      and hand out nothing: the starting urls are never sent to anyone. */
  lemma {:induction false} StartupsAloneNeverStartTheCrawl(startingUrls: seq<string>, events: seq<Event>, crawlOverQueryStrings: bool)
    requires AllStartups(events)
    ensures Run(Init(startingUrls), events, crawlOverQueryStrings) == StepResult(Init(startingUrls), [])
    decreases |events|
  {
    if events != [] {
      FirstTaskIgnored(Init(startingUrls), events[0].sender, crawlOverQueryStrings);
      StartupsAloneNeverStartTheCrawl(startingUrls, events[1..], crawlOverQueryStrings);
    }
  }

  /** A failed crawl (no url, an unparsable url, a request error or a status
      other than 200) reports no page: `pagesVisited` is left as it was, and
      the worker either becomes idle or is handed the whole frontier. */
  lemma FailedCrawlRecordsNothing(s: State, worker: WorkerId, url: Option<string>, fetch: string -> FetchOutcome,
                                  env: Env, crawlOverQueryStrings: bool)
    requires !Fetched(url, fetch, env)
    ensures var r := Step(s, worker, CrawlPage(url, fetch, env), crawlOverQueryStrings);
      && r.state.visited == s.visited
      && (s.frontier == [] ==> r.state.idle == s.idle + [worker] && r.sends == [])
      && (s.frontier != [] ==> SentUrls(r.sends) == Reversed(s.frontier))
  {
    var msg := CrawlPage(url, fetch, env);
    assert msg.page == None;
    if s.frontier != [] {
      DrainSendsFrontierReversed(s.idle, s.frontier, worker);
    }
  }

  /** A successful crawl records the page under its url, whatever links it
      reports, and queues only links that were not known before. */
  lemma CrawledPageIsRecorded(s: State, worker: WorkerId, url: string, fetch: string -> FetchOutcome,
                              env: Env, crawlOverQueryStrings: bool)
    requires Fetched(Some(url), fetch, env)
    requires DocumentWellFormed(fetch(url).body, env)
    ensures var page := CrawlPage(Some(url), fetch, env).page.value;
      var r := Step(s, worker, CrawlPage(Some(url), fetch, env), crawlOverQueryStrings);
      && page.details.url == env.parse(url).value.href
      && r.state.visited[page.details.url] == Visited(page.details)
      && (forall u :: u in r.state.visited && u !in s.visited && u != page.details.url ==> r.state.visited[u] == Placeholder)
  {
  }
}
