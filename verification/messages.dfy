/** The values that travel between the crawler's worker processes and its
    manager. Only the fields the manager reads are modelled; the sender's
    process id (`from`) is carried by the IPC layer and is left out. */
module Messages {
  import opened Optional

  /** `{url, assets}`: what is recorded for a page that was crawled. */
  datatype PageDetails = PageDetails(url: string, assets: seq<string>)

  /** `{details, links}`: a crawled page plus its raw same-origin anchors. */
  datatype CrawledPage = CrawledPage(details: PageDetails, links: seq<string>)

  /** `{type, data}` sent from a worker: `data.page` is absent when the worker
      has nothing to report. */
  datatype Message = Message(kind: string, page: Option<CrawledPage>)

  const NextTask: string := "nextTask"
  const FirstTask: string := "firstTask"

}
