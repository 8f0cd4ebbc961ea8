/** `extractHostname` of `src/util.js`: the host part of a URL, found by
    three string splits and no parsing. A JavaScript `TypeError` -- reading
    `indexOf` of the `undefined` that `split(sep)[1]` gives when `sep` is
    absent -- is the result `None`. */
module Util {
  import opened Optional
  import opened JsStrings

  /** `url.split('://')[1]` when the URL mentions `http`, else `''`: absent
      exactly when `http` comes without `://`, and otherwise the text from
      just after the first `://` up to the next `://` or the end. */
  function AfterScheme(url: string): (r: Option<string>)
    ensures !Contains(url, "http") ==> r == Some("")
    ensures Contains(url, "http") ==> (r.None? <==> !Contains(url, "://"))
    ensures r.Some? ==> IsInfix(r.value, url)
    ensures Contains(url, "http") && r.Some? ==>
      PieceAt(url, "://", IndexOf(url, "://").value + |"://"|, r.value)
  {
    if Contains(url, "http") then SplitSecond(url, "://")
    else
      assert OccursAt(url, "", 0);
      Some("")
  }

  /** `hostname.split('w.')[1]` when the text mentions `www`, else the text:
      absent exactly when `www` comes without `w.`, and otherwise the text
      from just after the first `w.` up to the next `w.` or the end. */
  function AfterWww(h: string): (r: Option<string>)
    ensures !Contains(h, "www") ==> r == Some(h)
    ensures Contains(h, "www") ==> (r.None? <==> !Contains(h, "w."))
    ensures r.Some? ==> IsInfix(r.value, h)
    ensures Contains(h, "www") && r.Some? ==>
      PieceAt(h, "w.", IndexOf(h, "w.").value + |"w."|, r.value)
  {
    if Contains(h, "www") then SplitSecond(h, "w.")
    else
      assert OccursAt(h, h, 0);
      Some(h)
  }

  /** `hostname.split('/')[0]` when the text holds a `/`, else the text:
      the text up to its first `/`. */
  function CutPath(h: string): (r: string)
    ensures r <= h
    ensures '/' !in r
    ensures |r| < |h| ==> h[|r|] == '/'
  {
    if Contains(h, "/") then
      var r := SplitFirst(h, "/");
      NoOccurrenceOfChar(r, '/');
      assert |r| < |h| ==> h[|r|] == '/' by {
        if |r| < |h| {
          OccursAtChar(h, '/', |r|);
        }
      }
      r
    else
      NoOccurrenceOfChar(h, '/');
      h
  }

  function ExtractHostname(url: string): (r: Option<string>)
    ensures !Contains(url, "http") ==> r == Some("")
    ensures Contains(url, "http") && !Contains(url, "://") ==> r.None?
    ensures r.Some? ==> '/' !in r.value
    ensures r.Some? ==> IsInfix(r.value, url)
    ensures r.Some? <==> AfterScheme(url).Some? && AfterWww(AfterScheme(url).value).Some?
    ensures r.Some? ==> r.value == CutPath(AfterWww(AfterScheme(url).value).value)
  {
    match AfterScheme(url)
    case None => None
    case Some(h0) =>
      match AfterWww(h0)
      case None => None
      case Some(h1) =>
        var h := CutPath(h1);
        assert IsInfix(h, h1) by {
          assert OccursAt(h1, h, 0);
        }
        InfixTransitive(h, h1, h0);
        InfixTransitive(h, h0, url);
        Some(h)
  }

  /** `extractHostname` throws exactly when the URL mentions `http` but has
      no `://`, or when the text after `://` mentions `www` but has no `w.`. */
  lemma {:induction false} ExtractHostnameThrows(url: string)
    ensures ExtractHostname(url).None? <==>
      Contains(url, "http") &&
      (!Contains(url, "://") ||
       (var h0 := SplitSecond(url, "://").value; Contains(h0, "www") && !Contains(h0, "w.")))
  {
  }

  /** An `http` or `https` scheme is followed by the text after its `://`
      when that text holds no further `://`. */
  lemma SchemeIsStripped(scheme: string, h0: string)
    requires scheme == "http" || scheme == "https"
    requires forall i :: !OccursAt(h0, "://", i)
    ensures AfterScheme(scheme + "://" + h0) == Some(h0)
  {
    var url := scheme + "://" + h0;
    assert url[..4] == "http";
    ContainsWitness(url, "http", 0);
    forall i | 0 <= i < |scheme| && OccursAt(url, "://", i) ensures false {
      OccursAtHead(url, "://", i);
    }
    SplitSecondAfter(scheme, "://", h0);
  }

  /** `www.` adds no `://` to a text that has none. */
  lemma WwwAddsNoScheme(rest: string)
    requires forall i :: !OccursAt(rest, "://", i)
    ensures forall i :: !OccursAt("www." + rest, "://", i)
  {
    var h0 := "www." + rest;
    forall i | OccursAt(h0, "://", i) ensures false {
      if i < 4 {
        OccursAtHead(h0, "://", i);
      } else {
        OccursAtSuffix(h0, 4, "://", i - 4);
      }
    }
  }

  /** A leading `www.` is cut at its `w.` when the rest holds no other `w.`. */
  lemma WwwIsStripped(rest: string)
    requires forall i :: !OccursAt(rest, "w.", i)
    ensures AfterWww("www." + rest) == Some(rest)
  {
    var h0 := "www." + rest;
    assert h0[..3] == "www";
    ContainsWitness(h0, "www", 0);
    assert h0[0..2] == "ww" && h0[1..3] == "ww";
    assert h0 == "ww" + "w." + rest;
    SplitSecondAfter("ww", "w.", rest);
  }

  /** A path that is empty or starts with `/` is cut off a host without `/`. */
  lemma PathIsCut(host: string, path: string)
    requires '/' !in host
    requires path == [] || path[0] == '/'
    ensures CutPath(host + path) == host
  {
    var r := CutPath(host + path);
    assert r == (host + path)[..|host|];
  }

  /** The shape the crawler feeds it: a scheme, `://www.`, a host without
      `/`, and a path that is empty or starts with `/`. The host is
      recovered, as long as neither it nor the path holds another `://` or
      `w.`. */
  lemma ExtractHostnameOfWebUrl(scheme: string, host: string, path: string)
    requires scheme == "http" || scheme == "https"
    requires '/' !in host
    requires path == [] || path[0] == '/'
    requires forall i :: !OccursAt(host + path, "://", i)
    requires forall i :: !OccursAt(host + path, "w.", i)
    ensures ExtractHostname(scheme + "://www." + host + path) == Some(host)
  {
    var rest := host + path;
    assert scheme + "://www." + host + path == scheme + "://" + ("www." + rest);
    WwwAddsNoScheme(rest);
    SchemeIsStripped(scheme, "www." + rest);
    WwwIsStripped(rest);
    PathIsCut(host, path);
  }

  /** The shape without `www`: a scheme, `://`, a host without `/`, and a
      path that is empty or starts with `/`. The host is recovered, as long
      as neither it nor the path holds another `://` or any `www`. */
  lemma ExtractHostnameOfPlainUrl(scheme: string, host: string, path: string)
    requires scheme == "http" || scheme == "https"
    requires '/' !in host
    requires path == [] || path[0] == '/'
    requires forall i :: !OccursAt(host + path, "://", i)
    requires forall i :: !OccursAt(host + path, "www", i)
    ensures ExtractHostname(scheme + "://" + host + path) == Some(host)
  {
    var rest := host + path;
    var url := scheme + "://" + host + path;
    assert url == scheme + "://" + rest;
    assert AfterScheme(url) == Some(rest) by {
      SchemeIsStripped(scheme, rest);
    }
    assert AfterWww(rest) == Some(rest) by {
      assert !Contains(rest, "www");
    }
    assert CutPath(rest) == host by {
      PathIsCut(host, path);
    }
  }

  /** The URL of `src/util.spec.js`, cut at the seams of the usual shape. */
  lemma AvenuecodeUrlShape(url: string)
    requires url == "http://www.avenuecode.com/events"
    ensures url == "http" + "://www." + "avenuecode.com" + "/events"
    ensures forall i :: !OccursAt("avenuecode.com" + "/events", "://", i)
    ensures forall i :: !OccursAt("avenuecode.com" + "/events", "w.", i)
  {
    NoOccurrenceOfHead("avenuecode.com" + "/events", "://");
    NoOccurrenceOfHead("avenuecode.com" + "/events", "w.");
  }

  /** The case of `src/util.spec.js`: the host of the avenuecode events page. */
  lemma AvenuecodeHostname(url: string)
    requires url == "http://www.avenuecode.com/events"
    ensures ExtractHostname(url) == Some("avenuecode.com")
  {
    AvenuecodeUrlShape(url);
    ExtractHostnameOfWebUrl("http", "avenuecode.com", "/events");
  }

  /** A URL that names no `http` has the empty hostname, whatever it holds. */
  lemma SchemelessUrlHasNoHostname(url: string)
    requires url == "www.avenuecode.com/events"
    ensures ExtractHostname(url) == Some("")
  {
    NoOccurrenceOfHead(url, "http");
  }

  /** `http` without `://` throws. */
  lemma HttpWithoutSeparatorThrows(url: string)
    requires url == "httpexample.com"
    ensures ExtractHostname(url).None?
  {
    assert url[..4] == "http";
    ContainsWitness(url, "http", 0);
    NoOccurrenceOfHead(url, "://");
  }
}
