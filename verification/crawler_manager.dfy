/** The crawler manager: link normalisation (`_clearLink`) and the body of the
    `cluster.on('message')` handler of `setUpWorkers`, written as a pure step
    from the manager's state and one incoming message to the next state and
    the `crawlPage` messages it sends. The handler's quirks are kept: only
    `nextTask` is handled, every assignment goes to the sender, the
    assignment loop drains both the idle list and the frontier, and the
    frontier is popped from its end. */
module CrawlerManager {
  import opened Optional
  import opened JsStrings
  import opened Messages
  import opened Seqs

  /** A cluster worker handle; only its identity matters here. */
  type WorkerId = nat

  /** A value of `pagesVisited`: `true` for a link already queued, or the
      details of a page already crawled. */
  datatype Visit = Placeholder | Visited(details: PageDetails)

  /** `pagesToVisit`, `pagesVisited` and `idleWorkers`. */
  datatype State = State(frontier: seq<string>, visited: map<string, Visit>, idle: seq<WorkerId>)

  /** `recipient.send({type: 'crawlPage', data: {url}})`; `None` stands for
      the `undefined` that `pop()` returns on an empty frontier. */
  datatype Send = Send(recipient: WorkerId, url: Option<string>)

  datatype StepResult = StepResult(state: State, sends: seq<Send>)

  /** The state `setUpWorkers` starts from: the starting urls are queued but
      not recorded in `pagesVisited`, so unless there are none the start
      state does not meet the run invariant `Consistent` below. */
  function Init(startingUrls: seq<string>): (r: State)
    ensures r.frontier == startingUrls && r.idle == []
    ensures forall u :: u !in r.visited
    ensures Consistent(r, {}) <==> startingUrls == []
  {
    var r := State(startingUrls, map[], []);
    assert startingUrls != [] ==> startingUrls[0] !in r.visited;
    r
  }

  function Max(a: int, b: int): int
  {
    if a < b then b else a
  }

  predicate NoDup<T(==)>(s: seq<T>)
  {
    forall i, j :: 0 <= i < j < |s| ==> s[i] != s[j]
  }

  // ---------------------------------------------------------------------
  // _clearLink
  // ---------------------------------------------------------------------

  /** `_clearLink(link, crawlOverQueryStrings)`: cut the link at its first
      `#` and, unless query strings are crawled, at its first `?`. The
      result is the longest prefix of `link` free of those characters. */
  function ClearLink(link: string, crawlOverQueryStrings: bool): (r: string)
    ensures r <= link
    ensures '#' !in r
    ensures !crawlOverQueryStrings ==> '?' !in r
    ensures |r| < |link| ==> link[|r|] == '#' || (!crawlOverQueryStrings && link[|r|] == '?')
  {
    var validLink := SplitFirst(link, "#");
    NoOccurrenceOfChar(validLink, '#');
    assert |validLink| < |link| ==> link[|validLink|] == '#' by {
      if |validLink| < |link| {
        OccursAtChar(link, '#', |validLink|);
      }
    }
    if !crawlOverQueryStrings && Contains(validLink, "?") then
      var noQuery := SplitFirst(validLink, "?");
      NoOccurrenceOfChar(noQuery, '?');
      OccursAtChar(validLink, '?', |noQuery|);
      noQuery
    else
      assert !crawlOverQueryStrings ==> '?' !in validLink by {
        if !crawlOverQueryStrings {
          NoOccurrenceOfChar(validLink, '?');
        }
      }
      validLink
  }

  /** The links `_clearLink` leaves alone are exactly those with no `#` and,
      unless query strings are crawled, no `?`. */
  lemma ClearLinkFixedPoints(link: string, crawlOverQueryStrings: bool)
    ensures ClearLink(link, crawlOverQueryStrings) == link
            <==> '#' !in link && (crawlOverQueryStrings || '?' !in link)
  {
  }

  /** Normalising a normalised link changes nothing. */
  lemma ClearLinkIdempotent(link: string, crawlOverQueryStrings: bool)
    ensures ClearLink(ClearLink(link, crawlOverQueryStrings), crawlOverQueryStrings)
            == ClearLink(link, crawlOverQueryStrings)
  {
    ClearLinkFixedPoints(ClearLink(link, crawlOverQueryStrings), crawlOverQueryStrings);
  }

  // ---------------------------------------------------------------------
  // The deduplication fold over a report's links
  // ---------------------------------------------------------------------

  /** The normalised forms of `links`. */
  function ClearedLinks(links: seq<string>, crawlOverQueryStrings: bool): set<string>
    decreases |links|
  {
    if links == [] then {}
    else {ClearLink(links[0], crawlOverQueryStrings)} + ClearedLinks(links[1..], crawlOverQueryStrings)
  }

  /** `ClearedLinks` holds exactly the normalised forms of the given links. */
  lemma {:induction false} ClearedLinksMembers(links: seq<string>, crawlOverQueryStrings: bool, u: string)
    ensures u in ClearedLinks(links, crawlOverQueryStrings)
            <==> exists l :: l in links && ClearLink(l, crawlOverQueryStrings) == u
    decreases |links|
  {
    if links != [] {
      ClearedLinksMembers(links[1..], crawlOverQueryStrings, u);
      if u in ClearedLinks(links[1..], crawlOverQueryStrings) {
        var l :| l in links[1..] && ClearLink(l, crawlOverQueryStrings) == u;
        assert l in links;
      }
      if exists l :: l in links && ClearLink(l, crawlOverQueryStrings) == u {
        var l :| l in links && ClearLink(l, crawlOverQueryStrings) == u;
        if l != links[0] {
          assert l in links[1..];
        }
      }
    }
  }

  /** The `page.links.reduce(...)` of the handler, in link order: each link
      is normalised; one that is not yet a key of `visited` becomes a key
      (with the placeholder `true`) and is collected. Returns the collected
      links and the updated map. */
  function Dedup(links: seq<string>, visited: map<string, Visit>, crawlOverQueryStrings: bool)
    : (r: (seq<string>, map<string, Visit>))
    ensures r.1.Keys == visited.Keys + ClearedLinks(links, crawlOverQueryStrings)
    ensures forall u :: u in visited ==> r.1[u] == visited[u]
    ensures forall u :: u in r.1 && u !in visited ==> r.1[u] == Placeholder
    decreases |links|
  {
    if links == [] then ([], visited)
    else
      var validLink := ClearLink(links[0], crawlOverQueryStrings);
      if validLink in visited then
        Dedup(links[1..], visited, crawlOverQueryStrings)
      else
        var rest := Dedup(links[1..], visited[validLink := Placeholder], crawlOverQueryStrings);
        ([validLink] + rest.0, rest.1)
  }

  /** Every link in `collected` is one of `candidates` and not a key of `visited`. */
  ghost predicate AllUnseen(collected: seq<string>, visited: map<string, Visit>, candidates: set<string>)
  {
    forall i :: 0 <= i < |collected| ==> collected[i] !in visited && collected[i] in candidates
  }

  /** Every one of `candidates` that is not a key of `visited` is in `collected`. */
  ghost predicate AllCollected(collected: seq<string>, visited: map<string, Visit>, candidates: set<string>)
  {
    forall u :: u in candidates && u !in visited ==> u in collected
  }

  /** Every link `Dedup` collects is a normalised link that was not a key of
      `visited`. */
  lemma {:induction false} DedupCollectsOnlyUnseen(links: seq<string>, visited: map<string, Visit>, crawlOverQueryStrings: bool)
    ensures AllUnseen(Dedup(links, visited, crawlOverQueryStrings).0, visited, ClearedLinks(links, crawlOverQueryStrings))
    decreases |links|
  {
    if links != [] {
      var validLink := ClearLink(links[0], crawlOverQueryStrings);
      assert ClearedLinks(links, crawlOverQueryStrings)
          == {validLink} + ClearedLinks(links[1..], crawlOverQueryStrings);
      if validLink in visited {
        assert Dedup(links, visited, crawlOverQueryStrings) == Dedup(links[1..], visited, crawlOverQueryStrings);
        DedupCollectsOnlyUnseen(links[1..], visited, crawlOverQueryStrings);
      } else {
        var visited' := visited[validLink := Placeholder];
        DedupCollectsOnlyUnseen(links[1..], visited', crawlOverQueryStrings);
        var rest := Dedup(links[1..], visited', crawlOverQueryStrings).0;
        var collected := [validLink] + rest;
        assert Dedup(links, visited, crawlOverQueryStrings).0 == collected;
        forall i | 0 <= i < |collected|
          ensures collected[i] !in visited && collected[i] in ClearedLinks(links, crawlOverQueryStrings)
        {
          if i > 0 {
            assert collected[i] == rest[i - 1];
          }
        }
      }
    }
  }

  /** Every normalised link that was not a key of `visited` is collected. */
  lemma {:induction false} DedupCollectsAllUnseen(links: seq<string>, visited: map<string, Visit>, crawlOverQueryStrings: bool)
    ensures AllCollected(Dedup(links, visited, crawlOverQueryStrings).0, visited, ClearedLinks(links, crawlOverQueryStrings))
    decreases |links|
  {
    if links != [] {
      var validLink := ClearLink(links[0], crawlOverQueryStrings);
      assert ClearedLinks(links, crawlOverQueryStrings)
          == {validLink} + ClearedLinks(links[1..], crawlOverQueryStrings);
      if validLink in visited {
        assert Dedup(links, visited, crawlOverQueryStrings) == Dedup(links[1..], visited, crawlOverQueryStrings);
        DedupCollectsAllUnseen(links[1..], visited, crawlOverQueryStrings);
      } else {
        var visited' := visited[validLink := Placeholder];
        DedupCollectsAllUnseen(links[1..], visited', crawlOverQueryStrings);
        assert Dedup(links, visited, crawlOverQueryStrings).0
            == [validLink] + Dedup(links[1..], visited', crawlOverQueryStrings).0;
      }
    }
  }

  /** No link is collected twice, even when it is reported twice. */
  lemma {:induction false} DedupCollectsOnce(links: seq<string>, visited: map<string, Visit>, crawlOverQueryStrings: bool)
    ensures NoDup(Dedup(links, visited, crawlOverQueryStrings).0)
    decreases |links|
  {
    if links != [] {
      var validLink := ClearLink(links[0], crawlOverQueryStrings);
      if validLink in visited {
        assert Dedup(links, visited, crawlOverQueryStrings) == Dedup(links[1..], visited, crawlOverQueryStrings);
        DedupCollectsOnce(links[1..], visited, crawlOverQueryStrings);
      } else {
        var visited' := visited[validLink := Placeholder];
        DedupCollectsOnce(links[1..], visited', crawlOverQueryStrings);
        DedupCollectsOnlyUnseen(links[1..], visited', crawlOverQueryStrings);
        var rest := Dedup(links[1..], visited', crawlOverQueryStrings).0;
        assert forall i, j :: 0 <= i < |[validLink]| && 0 <= j < |rest| ==> [validLink][i] != rest[j] by {
          assert AllUnseen(rest, visited', ClearedLinks(links[1..], crawlOverQueryStrings));
        }
        AppendKeepsNoDup([validLink], rest);
        assert Dedup(links, visited, crawlOverQueryStrings).0 == [validLink] + rest;
      }
    }
  }

  // ---------------------------------------------------------------------
  // The message handler
  // ---------------------------------------------------------------------

  /** The `if (msg.data.page)` branch of the handler: record the reported page under its url,
      then append the unseen normalised links to the frontier. Returns the
      new frontier and the new `pagesVisited`. */
  function Merge(s: State, page: Option<CrawledPage>, crawlOverQueryStrings: bool)
    : (r: (seq<string>, map<string, Visit>))
    ensures s.frontier <= r.0
    ensures NoDup(r.0[|s.frontier|..])
    ensures page.None? ==> r == (s.frontier, s.visited)
    ensures page.Some? ==>
      var p := page.value;
      var recorded := s.visited[p.details.url := Visited(p.details)];
      && r.1.Keys == recorded.Keys + ClearedLinks(p.links, crawlOverQueryStrings)
      && (forall u :: u in recorded ==> r.1[u] == recorded[u])
      && AllUnseen(r.0[|s.frontier|..], recorded, ClearedLinks(p.links, crawlOverQueryStrings))
      && AllCollected(r.0[|s.frontier|..], recorded, ClearedLinks(p.links, crawlOverQueryStrings))
  {
    match page
    case None => (s.frontier, s.visited)
    case Some(p) =>
      var recorded := s.visited[p.details.url := Visited(p.details)];
      var dedup := Dedup(p.links, recorded, crawlOverQueryStrings);
      DedupCollectsOnlyUnseen(p.links, recorded, crawlOverQueryStrings);
      DedupCollectsAllUnseen(p.links, recorded, crawlOverQueryStrings);
      DedupCollectsOnce(p.links, recorded, crawlOverQueryStrings);
      assert (s.frontier + dedup.0)[|s.frontier|..] == dedup.0;
      (s.frontier + dedup.0, dedup.1)
  }

  /** The handler's `while` loop: while idle workers or frontier
      entries remain, shift an idle worker (the shifted worker is not used)
      and send the popped frontier entry to the sender. */
  function Drain(idle: seq<WorkerId>, frontier: seq<string>, sender: WorkerId): (r: seq<Send>)
    ensures |r| == Max(|idle|, |frontier|)
    ensures forall i :: 0 <= i < |r| ==> r[i].recipient == sender
    ensures forall i :: 0 <= i < |r| ==>
      r[i].url == if i < |frontier| then Some(frontier[|frontier| - 1 - i]) else None
    decreases |idle| + |frontier|
  {
    if |idle| == 0 && |frontier| == 0 then []
    else
      var remainingIdle := if |idle| > 0 then idle[1..] else idle;
      var url := if |frontier| > 0 then Some(frontier[|frontier| - 1]) else None;
      var remaining := if |frontier| > 0 then frontier[..|frontier| - 1] else frontier;
      [Send(sender, url)] + Drain(remainingIdle, remaining, sender)
  }

  /** One run of the `message` handler for `msg` from worker `sender`. */
  function Step(s: State, sender: WorkerId, msg: Message, crawlOverQueryStrings: bool): (r: StepResult)
    ensures msg.kind != NextTask ==> r == StepResult(s, [])
    ensures msg.kind == NextTask ==> r.state.visited == Merge(s, msg.page, crawlOverQueryStrings).1
    ensures msg.kind == NextTask && Merge(s, msg.page, crawlOverQueryStrings).0 == [] ==>
      r.state == State([], r.state.visited, s.idle + [sender]) && r.sends == []
    ensures msg.kind == NextTask && Merge(s, msg.page, crawlOverQueryStrings).0 != [] ==>
      var frontier := Merge(s, msg.page, crawlOverQueryStrings).0;
      && r.state.frontier == [] && r.state.idle == []
      && |r.sends| == Max(|s.idle|, |frontier|)
      && (forall i :: 0 <= i < |r.sends| ==> r.sends[i].recipient == sender)
      && (forall i :: 0 <= i < |r.sends| ==>
            r.sends[i].url == if i < |frontier| then Some(frontier[|frontier| - 1 - i]) else None)
  {
    if msg.kind != NextTask then StepResult(s, [])
    else
      var merged := Merge(s, msg.page, crawlOverQueryStrings);
      if |merged.0| == 0 then
        StepResult(State(merged.0, merged.1, s.idle + [sender]), [])
      else
        StepResult(State([], merged.1, []), Drain(s.idle, merged.0, sender))
  }

  // ---------------------------------------------------------------------
  // No url is handed out twice
  // ---------------------------------------------------------------------

  /** The urls carried by `sends`, in order, skipping the absent ones. */
  function SentUrls(sends: seq<Send>): seq<string>
    decreases |sends|
  {
    if sends == [] then []
    else (if sends[0].url.Some? then [sends[0].url.value] else []) + SentUrls(sends[1..])
  }

  lemma {:induction false} SentUrlsAppend(a: seq<Send>, b: seq<Send>)
    ensures SentUrls(a + b) == SentUrls(a) + SentUrls(b)
    decreases |a|
  {
    if a == [] {
      assert a + b == b;
    } else {
      assert (a + b)[0] == a[0];
      assert (a + b)[1..] == a[1..] + b;
      SentUrlsAppend(a[1..], b);
      AppendAssociates(if a[0].url.Some? then [a[0].url.value] else [], SentUrls(a[1..]), SentUrls(b));
    }
  }

  /** `s` read from its last element to its first. */
  function Reversed<T>(s: seq<T>): seq<T>
  {
    seq(|s|, i requires 0 <= i < |s| => s[|s| - 1 - i])
  }

  /** When the first `k` sends carry a url and the others none, the urls sent
      are those of the first `k` sends. */
  lemma {:induction false} SentUrlsOfLeadingSomes(sends: seq<Send>, k: nat)
    requires k <= |sends|
    requires forall i :: 0 <= i < k ==> sends[i].url.Some?
    requires forall i :: k <= i < |sends| ==> sends[i].url.None?
    ensures |SentUrls(sends)| == k
    ensures forall i :: 0 <= i < k ==> SentUrls(sends)[i] == sends[i].url.value
    decreases |sends|
  {
    if sends != [] {
      if k == 0 {
        SentUrlsOfLeadingSomes(sends[1..], 0);
      } else {
        SentUrlsOfLeadingSomes(sends[1..], k - 1);
        assert SentUrls(sends) == [sends[0].url.value] + SentUrls(sends[1..]);
      }
    }
  }

  /** The assignment loop hands out the whole frontier, last entry first. */
  lemma DrainSendsFrontierReversed(idle: seq<WorkerId>, frontier: seq<string>, sender: WorkerId)
    ensures SentUrls(Drain(idle, frontier, sender)) == Reversed(frontier)
  {
    var sends := Drain(idle, frontier, sender);
    SentUrlsOfLeadingSomes(sends, |frontier|);
  }

  /** The bookkeeping that makes deduplication work, relative to the set of
      urls already handed to workers: the frontier holds no url twice, every
      frontier url and every url handed out is a key of `pagesVisited`, and no
      frontier url has been handed out. */
  ghost predicate Consistent(s: State, handedOut: set<string>)
  {
    && NoDup(s.frontier)
    && (forall i :: 0 <= i < |s.frontier| ==> s.frontier[i] in s.visited && s.frontier[i] !in handedOut)
    && handedOut <= s.visited.Keys
  }

  ghost function Elements<T>(s: seq<T>): set<T>
  {
    set x | x in s
  }

  /** `urls` holds no url twice and none from `handedOut`. */
  ghost predicate FreshAssignments(urls: seq<string>, handedOut: set<string>)
  {
    NoDup(urls) && forall i :: 0 <= i < |urls| ==> urls[i] !in handedOut
  }

  /** Merging a report keeps the frontier duplicate-free, registered in
      `pagesVisited` and disjoint from the urls already handed out. */
  lemma MergeKeepsConsistent(s: State, handedOut: set<string>, page: Option<CrawledPage>, crawlOverQueryStrings: bool)
    requires Consistent(s, handedOut)
    ensures var merged := Merge(s, page, crawlOverQueryStrings);
      Consistent(State(merged.0, merged.1, s.idle), handedOut)
  {
    if page.Some? {
      var p := page.value;
      var merged := Merge(s, page, crawlOverQueryStrings);
      var recorded := s.visited[p.details.url := Visited(p.details)];
      var cleared := ClearedLinks(p.links, crawlOverQueryStrings);
      var m := merged.0;
      var n := |s.frontier|;
      var added := m[n..];
      assert AllUnseen(added, recorded, cleared);
      assert m == s.frontier + added;
      assert merged.1.Keys == recorded.Keys + cleared;
      forall i | 0 <= i < |added| ensures added[i] in merged.1 && added[i] !in handedOut && added[i] !in s.visited {
        assert added[i] !in recorded && added[i] in cleared;
      }
      forall i | 0 <= i < |m| ensures m[i] in merged.1 && m[i] !in handedOut {
        if i >= n {
          assert m[i] == added[i - n];
        } else {
          assert m[i] == s.frontier[i];
        }
      }
      AppendKeepsNoDup(s.frontier, added);
    }
  }

  /** Two duplicate-free sequences with no common element concatenate into a
      duplicate-free one. */
  lemma AppendKeepsNoDup<T>(a: seq<T>, b: seq<T>)
    requires NoDup(a) && NoDup(b)
    requires forall i, j :: 0 <= i < |a| && 0 <= j < |b| ==> a[i] != b[j]
    ensures NoDup(a + b)
  {
    var m := a + b;
    forall i, j | 0 <= i < j < |m| ensures m[i] != m[j] {
      if j >= |a| {
        assert m[j] == b[j - |a|];
        if i >= |a| {
          assert m[i] == b[i - |a|];
        }
      }
    }
  }

  lemma ReversedKeepsNoDup<T>(s: seq<T>)
    requires NoDup(s)
    ensures NoDup(Reversed(s))
    ensures forall i :: 0 <= i < |s| ==> Reversed(s)[i] in s
  {
  }

  /** One handler run keeps the bookkeeping and assigns only urls that were
      never handed out before, each at most once. */
  lemma StepKeepsConsistent(s: State, handedOut: set<string>, sender: WorkerId, msg: Message, crawlOverQueryStrings: bool)
    requires Consistent(s, handedOut)
    ensures var r := Step(s, sender, msg, crawlOverQueryStrings);
      && FreshAssignments(SentUrls(r.sends), handedOut)
      && Consistent(r.state, handedOut + Elements(SentUrls(r.sends)))
  {
    if msg.kind == NextTask {
      var merged := Merge(s, msg.page, crawlOverQueryStrings);
      MergeKeepsConsistent(s, handedOut, msg.page, crawlOverQueryStrings);
      var m := merged.0;
      if |m| > 0 {
        var sends := Drain(s.idle, m, sender);
        assert Step(s, sender, msg, crawlOverQueryStrings) == StepResult(State([], merged.1, []), sends);
        DrainSendsFrontierReversed(s.idle, m, sender);
        ReversedKeepsNoDup(m);
        assert Elements(SentUrls(sends)) <= merged.1.Keys;
      } else {
        assert Step(s, sender, msg, crawlOverQueryStrings) == StepResult(State([], merged.1, s.idle + [sender]), []);
      }
    }
  }

  /** A message from a worker, in arrival order. */
  datatype Event = Event(sender: WorkerId, msg: Message)

  /** The handler applied to each event in turn; the sends are collected.
      Messages other than `nextTask` leave the state alone and send nothing. */
  function Run(s: State, events: seq<Event>, crawlOverQueryStrings: bool): (r: StepResult)
    ensures (forall k :: 0 <= k < |events| ==> events[k].msg.kind != NextTask) ==> r == StepResult(s, [])
    decreases |events|
  {
    if events == [] then StepResult(s, [])
    else
      var first := Step(s, events[0].sender, events[0].msg, crawlOverQueryStrings);
      var rest := Run(first.state, events[1..], crawlOverQueryStrings);
      assert forall k :: 1 <= k < |events| ==> events[k] == events[1..][k - 1];
      StepResult(rest.state, first.sends + rest.sends)
  }

  /** `Run` consumes its first event by one `Step`. */
  lemma RunFirst(s: State, events: seq<Event>, crawlOverQueryStrings: bool)
    requires events != []
    ensures var step := Step(s, events[0].sender, events[0].msg, crawlOverQueryStrings);
      var rest := Run(step.state, events[1..], crawlOverQueryStrings);
      Run(s, events, crawlOverQueryStrings) == StepResult(rest.state, step.sends + rest.sends)
  {
  }

  /** Running two batches of events one after the other is running them
      together: the handler keeps no state outside `State`. */
  lemma {:induction false} RunAppend(s: State, a: seq<Event>, b: seq<Event>, crawlOverQueryStrings: bool)
    ensures var first := Run(s, a, crawlOverQueryStrings);
      var second := Run(first.state, b, crawlOverQueryStrings);
      Run(s, a + b, crawlOverQueryStrings) == StepResult(second.state, first.sends + second.sends)
    decreases |a|
  {
    if a == [] {
      assert a + b == b;
    } else {
      var ab := a + b;
      assert ab[0] == a[0];
      assert ab[1..] == a[1..] + b;
      var step := Step(s, a[0].sender, a[0].msg, crawlOverQueryStrings);
      var first := Run(step.state, a[1..], crawlOverQueryStrings);
      var second := Run(first.state, b, crawlOverQueryStrings);
      assert Run(s, a, crawlOverQueryStrings) == StepResult(first.state, step.sends + first.sends) by {
        RunFirst(s, a, crawlOverQueryStrings);
      }
      assert Run(step.state, a[1..] + b, crawlOverQueryStrings) == StepResult(second.state, first.sends + second.sends) by {
        RunAppend(step.state, a[1..], b, crawlOverQueryStrings);
      }
      assert Run(s, ab, crawlOverQueryStrings) == StepResult(second.state, step.sends + (first.sends + second.sends)) by {
        RunFirst(s, ab, crawlOverQueryStrings);
      }
      AppendAssociates(step.sends, first.sends, second.sends);
    }
  }

  /** However the workers' reports interleave, from a consistent state no
      url is handed to a worker twice, nor one that was handed out before. */
  lemma {:induction false} RunAssignsEachUrlOnce(s: State, handedOut: set<string>, events: seq<Event>, crawlOverQueryStrings: bool)
    requires Consistent(s, handedOut)
    ensures FreshAssignments(SentUrls(Run(s, events, crawlOverQueryStrings).sends), handedOut)
    decreases |events|
  {
    if events != [] {
      var first := Step(s, events[0].sender, events[0].msg, crawlOverQueryStrings);
      StepKeepsConsistent(s, handedOut, events[0].sender, events[0].msg, crawlOverQueryStrings);
      var a := SentUrls(first.sends);
      var handedOut' := handedOut + Elements(a);
      RunAssignsEachUrlOnce(first.state, handedOut', events[1..], crawlOverQueryStrings);
      var rest := Run(first.state, events[1..], crawlOverQueryStrings);
      var b := SentUrls(rest.sends);
      SentUrlsAppend(first.sends, rest.sends);
      assert Run(s, events, crawlOverQueryStrings).sends == first.sends + rest.sends;
      ConcatFresh(a, b, handedOut);
    }
  }

  lemma ConcatFresh(a: seq<string>, b: seq<string>, handedOut: set<string>)
    requires FreshAssignments(a, handedOut)
    requires FreshAssignments(b, handedOut + Elements(a))
    ensures FreshAssignments(a + b, handedOut)
  {
    var all := a + b;
    forall i | 0 <= i < |all| ensures all[i] !in handedOut {
      if i >= |a| {
        assert all[i] == b[i - |a|];
      }
    }
    forall i, j | 0 <= i < j < |all| ensures all[i] != all[j] {
      if j >= |a| {
        assert all[j] == b[j - |a|];
        if i >= |a| {
          assert all[i] == b[i - |a|];
        } else {
          assert all[i] in Elements(a);
        }
      }
    }
  }

  // ---------------------------------------------------------------------
  // The query-string flag as the handler reads it
  // ---------------------------------------------------------------------

  /** The handler as written: the `_clearLink` call reads `this._crawlOverQueryStrings`
      inside an arrow function nested in the `cluster.on('message')`
      listener, where `this` is the `cluster` module rather than the
      manager, so the value read is `undefined` whatever the manager was
      configured with. */
  function StepAsWritten(s: State, sender: WorkerId, msg: Message, configured: bool): (r: StepResult)
    ensures forall u :: (u in r.state.visited && u !in s.visited && (msg.page.None? || u != msg.page.value.details.url))
                        ==> '?' !in u
  {
    var r := Step(s, sender, msg, false);
    forall u | u in r.state.visited && u !in s.visited && (msg.page.None? || u != msg.page.value.details.url)
      ensures '?' !in u
    {
      ClearedLinksMembers(msg.page.value.links, false, u);
    }
    r
  }

  /** The start state queues its urls without recording them, so a page
      that links back to a starting url has that url handed out a second
      time by the very report that names it. */
  lemma StartingUrlHandedOutTwice(u: string, d: PageDetails, sender: WorkerId, crawlOverQueryStrings: bool)
    requires '#' !in u && '?' !in u && u != d.url
    ensures Step(Init([u]), sender, Message(NextTask, Some(CrawledPage(d, [u]))), crawlOverQueryStrings).sends
            == [Send(sender, Some(u)), Send(sender, Some(u))]
  {
    ClearLinkFixedPoints(u, crawlOverQueryStrings);
    var recorded := map[][d.url := Visited(d)];
    assert [u][1..] == [];
    assert Dedup([u], recorded, crawlOverQueryStrings).0 == [u];
    assert Merge(Init([u]), Some(CrawledPage(d, [u])), crawlOverQueryStrings).0 == [u, u];
  }

  /** From the start state, a report of a page with a single link hands out
      that link's normalised form, unless it is the page itself. */
  lemma SingleLinkReport(d: PageDetails, link: string, sender: WorkerId, crawlOverQueryStrings: bool)
    requires ClearLink(link, crawlOverQueryStrings) != d.url
    ensures Step(State([], map[], []), sender, Message(NextTask, Some(CrawledPage(d, [link]))), crawlOverQueryStrings).sends
            == [Send(sender, Some(ClearLink(link, crawlOverQueryStrings)))]
  {
    var u := ClearLink(link, crawlOverQueryStrings);
    var recorded := map[][d.url := Visited(d)];
    assert [link][1..] == [];
    assert Dedup([link], recorded, crawlOverQueryStrings).0 == [u];
    assert Merge(State([], map[], []), Some(CrawledPage(d, [link])), crawlOverQueryStrings).0 == [u];
  }

  /** A manager configured to crawl query strings still cuts them: a page
      reporting one link with a query string and no fragment hands out the
      link without its query string. */
  lemma QueryFlagIgnoredAsWritten(d: PageDetails, link: string, sender: WorkerId)
    requires '#' !in link && '?' in link
    requires ClearLink(link, false) != d.url
    ensures StepAsWritten(State([], map[], []), sender, Message(NextTask, Some(CrawledPage(d, [link]))), true).sends
            == [Send(sender, Some(ClearLink(link, false)))]
    ensures ClearLink(link, false) != link
  {
    SingleLinkReport(d, link, sender, false);
  }

  /** With the flag honoured, the same report hands out the link with its
      query string. */
  lemma QueryFlagHonoured(d: PageDetails, link: string, sender: WorkerId)
    requires '#' !in link && link != d.url
    ensures Step(State([], map[], []), sender, Message(NextTask, Some(CrawledPage(d, [link]))), true).sends
            == [Send(sender, Some(link))]
  {
    ClearLinkFixedPoints(link, true);
    SingleLinkReport(d, link, sender, true);
  }
}
