/** The command line of `src/index.js`: `process.argv` folded into
    `{url, query}`, and the refusal to start without a URL. */
module Cli {
  import opened Optional
  import opened JsStrings

  const UrlKey: string := "url="
  const QueryKey: string := "query="

  /** The accumulator of the fold; `url` is `None` while no argument has set
      it (the property is absent from `{query: false}`). */
  datatype Params = Params(url: Option<string>, query: bool)

  /** What the program does with its parameters: throw "No URL was
      provided", or start crawling from `url`. */
  datatype Outcome = MissingUrl | Start(url: string, crawlOverQueryStrings: bool)

  /** One step of the `reduce`: an argument mentioning `url=` sets the URL to
      the text after it; otherwise one mentioning `query=` sets the flag to
      whether the text after it is exactly `true`; any other is ignored. */
  function ParamStep(p: Params, arg: string): (r: Params)
    ensures Contains(arg, UrlKey) ==> r.url.Some? && IsInfix(r.url.value, arg) && r.query == p.query
    ensures Contains(arg, UrlKey) ==> PieceAt(arg, UrlKey, IndexOf(arg, UrlKey).value + |UrlKey|, r.url.value)
    ensures !Contains(arg, UrlKey) ==> r.url == p.url
    ensures !Contains(arg, UrlKey) && Contains(arg, QueryKey) ==>
      var start := IndexOf(arg, QueryKey).value + |QueryKey|;
      (r.query <==> OccursAt(arg, "true", start) && (start + 4 == |arg| || OccursAt(arg, QueryKey, start + 4)))
    ensures !Contains(arg, UrlKey) && !Contains(arg, QueryKey) ==> r == p
  {
    if Contains(arg, UrlKey) then p.(url := SplitSecond(arg, UrlKey))
    else if Contains(arg, QueryKey) then
      QueryIsTrue(arg);
      p.(query := SplitSecond(arg, QueryKey) == Some("true"))
    else p
  }

  /** `parameter.split('query=')[1] === 'true'` holds exactly when `true`
      follows the first `query=` and is followed by the end or another
      `query=`. */
  lemma QueryIsTrue(arg: string)
    requires Contains(arg, QueryKey)
    ensures var start := IndexOf(arg, QueryKey).value + |QueryKey|;
      SplitSecond(arg, QueryKey) == Some("true")
      <==> OccursAt(arg, "true", start) && (start + 4 == |arg| || OccursAt(arg, QueryKey, start + 4))
  {
    SplitSecondIsText(arg, QueryKey, IndexOf(arg, QueryKey).value + |QueryKey|, "true");
  }

  /** `argv.reduce(ParamStep, acc)`. */
  function FoldArgs(acc: Params, argv: seq<string>): (r: Params)
    ensures (forall k :: 0 <= k < |argv| ==> !Contains(argv[k], UrlKey)) ==> r.url == acc.url
    ensures (forall k :: 0 <= k < |argv| ==> !Contains(argv[k], UrlKey) && !Contains(argv[k], QueryKey)) ==> r == acc
    decreases |argv|
  {
    if argv == [] then acc
    else
      assert forall k :: 1 <= k < |argv| ==> argv[k] == argv[1..][k - 1];
      FoldArgs(ParamStep(acc, argv[0]), argv[1..])
  }

  /** The URL set by the last argument that mentions `url=`, if any. */
  function LastUrl(argv: seq<string>): Option<string>
  {
    if argv == [] then None
    else
      var a := argv[|argv| - 1];
      if Contains(a, UrlKey) then SplitSecond(a, UrlKey) else LastUrl(argv[..|argv| - 1])
  }

  /** The flag set by the last argument that mentions `query=` but not
      `url=`, if any. */
  function LastQuery(argv: seq<string>): Option<bool>
  {
    if argv == [] then None
    else
      var a := argv[|argv| - 1];
      if !Contains(a, UrlKey) && Contains(a, QueryKey) then Some(SplitSecond(a, QueryKey) == Some("true"))
      else LastQuery(argv[..|argv| - 1])
  }

  /** The fold consumes one more argument by one more step. */
  lemma {:induction false} FoldArgsSnoc(acc: Params, argv: seq<string>, arg: string)
    ensures FoldArgs(acc, argv + [arg]) == ParamStep(FoldArgs(acc, argv), arg)
    decreases |argv|
  {
    if argv == [] {
      assert argv + [arg] == [arg];
    } else {
      assert (argv + [arg])[1..] == argv[1..] + [arg];
      FoldArgsSnoc(ParamStep(acc, argv[0]), argv[1..], arg);
    }
  }

  /** The fold is "last setter wins", field by field: each field is the value
      the last argument that sets it gives, or the starting value. */
  lemma {:induction false} FoldArgsLastWins(acc: Params, argv: seq<string>)
    ensures FoldArgs(acc, argv).url == (if LastUrl(argv).Some? then LastUrl(argv) else acc.url)
    ensures FoldArgs(acc, argv).query == (if LastQuery(argv).Some? then LastQuery(argv).value else acc.query)
    decreases |argv|
  {
    if argv != [] {
      var init := argv[..|argv| - 1];
      var a := argv[|argv| - 1];
      assert argv == init + [a];
      FoldArgsSnoc(acc, init, a);
      FoldArgsLastWins(acc, init);
    }
  }

  /** The parameters `src/index.js` ends up with. */
  function ParseArgs(argv: seq<string>): (r: Params)
    ensures r.url == LastUrl(argv)
    ensures r.query == (LastQuery(argv) == Some(true))
  {
    FoldArgsLastWins(Params(None, false), argv);
    FoldArgs(Params(None, false), argv)
  }

  /** `if (!parameters.url) throw ...`: an absent or empty URL stops the
      program; otherwise the crawl starts with the query flag. */
  function Run(argv: seq<string>): (r: Outcome)
    ensures r.MissingUrl? <==> LastUrl(argv) == None || LastUrl(argv) == Some("")
    ensures r.Start? ==> Some(r.url) == LastUrl(argv) && r.url != ""
    ensures r.Start? ==> r.crawlOverQueryStrings == (LastQuery(argv) == Some(true))
  {
    var p := ParseArgs(argv);
    match p.url
    case None => MissingUrl
    case Some(u) => if u == "" then MissingUrl else Start(u, p.query)
  }

  /** Arguments after the last URL setter do not change the URL, and a later
      URL setter overrides all earlier ones. */
  lemma {:induction false} LaterUrlOverrides(before: seq<string>, after: seq<string>)
    ensures LastUrl(before + after) == (if LastUrl(after).Some? then LastUrl(after) else LastUrl(before))
    decreases |after|
  {
    if after == [] {
      assert before + after == before;
    } else {
      var init := after[..|after| - 1];
      assert before + after == (before + init) + [after[|after| - 1]];
      assert (before + after)[..|before + after| - 1] == before + init;
      LaterUrlOverrides(before, init);
    }
  }

  /** Without any argument that mentions `query=`, query strings are cut. */
  lemma {:induction false} QueryDefaultsToFalse(argv: seq<string>)
    requires forall k :: 0 <= k < |argv| ==> !Contains(argv[k], QueryKey)
    ensures ParseArgs(argv).query == false
    decreases |argv|
  {
    if argv != [] {
      QueryDefaultsToFalse(argv[..|argv| - 1]);
    }
  }

  /** A final `url=<u>` argument, `u` holding no further `url=`, starts the
      crawl at `u` when `u` is not empty. */
  lemma UrlArgumentStartsCrawl(before: seq<string>, u: string)
    requires u != ""
    requires forall i :: !OccursAt(u, UrlKey, i)
    ensures Run(before + [UrlKey + u]).Start?
    ensures Run(before + [UrlKey + u]).url == u
  {
    var argv := before + [UrlKey + u];
    assert UrlKey + u == [] + UrlKey + u;
    SplitSecondAfter([], UrlKey, u);
    assert OccursAt(UrlKey + u, UrlKey, 0);
    ContainsWitness(UrlKey + u, UrlKey, 0);
    assert argv[..|argv| - 1] == before;
  }

  /** `url=` alone gives the empty URL, which the program refuses. */
  lemma EmptyUrlArgumentIsMissing(before: seq<string>)
    ensures Run(before + [UrlKey]).MissingUrl?
  {
    var argv := before + [UrlKey];
    assert UrlKey == [] + UrlKey + [];
    SplitSecondAfter([], UrlKey, []);
    assert OccursAt(UrlKey, UrlKey, 0);
    ContainsWitness(UrlKey, UrlKey, 0);
    assert argv[..|argv| - 1] == before;
  }
}
