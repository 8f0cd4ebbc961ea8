/** The crawler worker: the extraction of asset and link urls from a parsed
    page (`_crawlOverElement` and its wrappers, the inline-style background
    scan, `_crawlPage`) and the message `crawlPage` ends with. The HTTP
    request, the HTML parser, Node's `url.resolve` and the WHATWG `URL`
    parser are foreign code and enter as the fields of an `Env`. */
module CrawlerWorker {
  import opened Optional
  import opened JsStrings
  import opened Messages
  import opened Seqs

  /** The parts of a WHATWG `URL` object the worker reads. */
  datatype UrlInfo = UrlInfo(href: string, origin: string)

  /** An element as the HTML parser reports it: its tag name and its
      attribute object, as (name, value) pairs in attribute order. The
      parser keeps one value per name, so names are distinct. */
  datatype Element = Element(tag: string, attrs: seq<(string, string)>)

  /** A parsed page: its elements in document order. */
  type Document = seq<Element>

  /** The foreign collaborators:
      - `resolve(from, to)` is Node's `url.resolve`;
      - `parse(s)` is `new URL(s)`, `None` when the constructor throws;
      - `css(style, property)` is cheerio's `.css(property)` on an element
        whose `style` attribute is `style`. */
  datatype Env = Env(
    resolve: (string, string) -> string,
    parse: string -> Option<UrlInfo>,
    css: (string, string) -> Option<string>)

  /** The outcome of `Request(url, callback)`: an error, or a response with
      its status code and its body as parsed by cheerio. */
  datatype FetchOutcome = RequestError | Response(statusCode: int, body: Document)

  // ---------------------------------------------------------------------
  // The regular expressions `_contentRegExp`, `_jsRegExp`, `_imgRegExp`,
  // `_anyRegExp` and `_cssBackgroundClearRegExp`
  // ---------------------------------------------------------------------

  /** `_contentRegExp`, `_jsRegExp`, `_imgRegExp` and `_anyRegExp`. */
  datatype Filter = ContentFilter | JsFilter | ImgFilter | AnyFilter

  /** The alternatives each filter searches for after its leading `.*`. */
  function Words(f: Filter): seq<string>
  {
    match f
    case ContentFilter => ["css", "png", "jpeg", "jpg", "ico", "gif"]
    case JsFilter => ["js"]
    case ImgFilter => ["png", "jpeg", "jpg", "gif"]
    case AnyFilter => []
  }

  lemma WordsAreNonEmpty(f: Filter, w: string)
    requires w in Words(f)
    ensures |w| > 0
  {
  }

  /** `extensionRegExp.test(value)`, as a case-insensitive substring test. */
  predicate Matches(f: Filter, value: string)
  {
    f == AnyFilter || exists w :: w in Words(f) && |w| > 0 && ContainsCI(value, w)
  }

  /** What `.` matches in a JavaScript regular expression: any character
      but a line terminator. */
  predicate IsLineTerminator(c: char)
  {
    c == '\n' || c == '\r' || c == '\U{2028}' || c == '\U{2029}'
  }

  /** `.*` can match exactly `s[i..j]`. */
  ghost predicate DotRun(s: string, i: int, j: int)
  {
    0 <= i <= j <= |s| && forall k :: i <= k < j ==> !IsLineTerminator(s[k])
  }

  // `RegExp.prototype.test` for the unanchored `/.*(w1|...|wn)/i` (and for
  // `_anyRegExp`, which is `.*` alone): a match starts at some `i`, `.*` runs
  // to some `j`, and one of the words follows at `j`, ASCII case ignored.
  ghost predicate RegExpTest(f: Filter, s: string)
  {
    if f == AnyFilter then exists i, j :: DotRun(s, i, j)
    else exists i, j, w :: DotRun(s, i, j) && w in Words(f) && OccursAt(Lower(s), w, j)
  }

  /** The regular expressions select exactly the values that contain one of
      their words, ignoring ASCII case; `_anyRegExp` selects everything. */
  lemma FilterIsRegExpTest(f: Filter, s: string)
    ensures RegExpTest(f, s) <==> Matches(f, s)
  {
    if f == AnyFilter {
      assert DotRun(s, 0, 0);
    } else {
      if Matches(f, s) {
        MatchGivesTest(f, s);
      }
      if RegExpTest(f, s) {
        var i, j, w :| DotRun(s, i, j) && w in Words(f) && OccursAt(Lower(s), w, j);
        WordsAreNonEmpty(f, w);
        MatchesByWord(f, s, w, j);
      }
    }
  }

  /** A word found in the value is where the `.*` starting at that word's
      own position stops. */
  lemma MatchGivesTest(f: Filter, s: string)
    requires f != AnyFilter && Matches(f, s)
    ensures RegExpTest(f, s)
  {
    var w :| w in Words(f) && |w| > 0 && ContainsCI(s, w);
    var j := IndexOf(Lower(s), w).value;
    assert DotRun(s, j, j) && w in Words(f) && OccursAt(Lower(s), w, j);
  }

  // ---------------------------------------------------------------------
  // _verifyAttrValue and _crawlOverElement
  // ---------------------------------------------------------------------

  /** A truthy JavaScript string: present and non-empty. */
  predicate Truthy(v: Option<string>)
  {
    v.Some? && v.value != ""
  }

  /** `_verifyAttrValue(value, href, extensionRegExp)`: a truthy value the
      filter accepts is kept as it is when it starts with `http` (any case),
      and resolved against `href` otherwise; anything else yields null. */
  function VerifyAttrValue(value: Option<string>, href: string, f: Filter, resolve: (string, string) -> string)
    : (r: Option<string>)
    ensures r.None? <==> !Truthy(value) || !Matches(f, value.value)
    ensures r.Some? && StartsWithCI(value.value, "http") ==> r.value == value.value
    ensures r.Some? && !StartsWithCI(value.value, "http") ==> r.value == resolve(href, value.value)
  {
    if Truthy(value) && Matches(f, value.value) then
      if StartsWithCI(value.value, "http") then value else Some(resolve(href, value.value))
    else
      None
  }

  /** `$(element).attr(name)`: the value of the attribute called `name`. */
  function AttrValue(attrs: seq<(string, string)>, name: string): (r: Option<string>)
    ensures r.Some? ==> (name, r.value) in attrs
    ensures r.None? ==> forall k :: 0 <= k < |attrs| ==> attrs[k].0 != name
    decreases |attrs|
  {
    if attrs == [] then None
    else if attrs[0].0 == name then Some(attrs[0].1)
    else AttrValue(attrs[1..], name)
  }

  /** The values `_crawlOverElement` looks at on one element: the named
      attribute (possibly absent), or every attribute value in order when
      the name is `''`. */
  function Considered(e: Element, attr: string): seq<Option<string>>
  {
    if attr != "" then [AttrValue(e.attrs, attr)]
    else seq(|e.attrs|, k requires 0 <= k < |e.attrs| => Some(e.attrs[k].1))
  }

  /** A named attribute gives one value: that attribute's, or `undefined`
      when the element has no attribute of that name. No name gives every
      attribute value of the element, in order, none of them `undefined`. */
  lemma ConsideredValues(e: Element, attr: string)
    ensures attr != "" ==> |Considered(e, attr)| == 1
    ensures attr != "" && Considered(e, attr)[0].Some? ==> (attr, Considered(e, attr)[0].value) in e.attrs
    ensures attr != "" && Considered(e, attr)[0].None? ==> forall k :: 0 <= k < |e.attrs| ==> e.attrs[k].0 != attr
    ensures attr == "" ==> |Considered(e, attr)| == |e.attrs|
    ensures attr == "" ==> forall k :: 0 <= k < |e.attrs| ==> Considered(e, attr)[k] == Some(e.attrs[k].1)
  {
  }

  /** The `attrsValues.reduce(...)` of `_crawlOverElement`: the truthy
      results of `_verifyAttrValue`, in order. */
  function ValidValues(values: seq<Option<string>>, href: string, f: Filter, resolve: (string, string) -> string)
    : (r: seq<string>)
    ensures |r| <= |values|
    ensures forall x :: x in r ==> x != "" && exists v :: v in values && VerifyAttrValue(v, href, f, resolve) == Some(x)
    ensures forall i :: 0 <= i < |values| && Truthy(VerifyAttrValue(values[i], href, f, resolve)) ==>
              VerifyAttrValue(values[i], href, f, resolve).value in r
    decreases |values|
  {
    if values == [] then []
    else
      var value := VerifyAttrValue(values[0], href, f, resolve);
      var rest := ValidValues(values[1..], href, f, resolve);
      assert forall v :: v in values[1..] ==> v in values;
      assert forall i :: 1 <= i < |values| ==> values[i] == values[1..][i - 1];
      if Truthy(value) then [value.value] + rest else rest
  }

  /** One value contributes exactly its truthy `_verifyAttrValue` result. */
  lemma ValidValuesSingle(v: Option<string>, href: string, f: Filter, resolve: (string, string) -> string)
    ensures ValidValues([v], href, f, resolve)
            == if Truthy(VerifyAttrValue(v, href, f, resolve)) then [VerifyAttrValue(v, href, f, resolve).value] else []
  {
    assert [v][1..] == [];
  }

  /** The `reduce` keeps the results in the order of the values. */
  lemma {:induction false} ValidValuesAppend(a: seq<Option<string>>, b: seq<Option<string>>, href: string, f: Filter,
                                             resolve: (string, string) -> string)
    ensures ValidValues(a + b, href, f, resolve) == ValidValues(a, href, f, resolve) + ValidValues(b, href, f, resolve)
    decreases |a|
  {
    if a == [] {
      assert a + b == b;
    } else {
      assert (a + b)[0] == a[0];
      assert (a + b)[1..] == a[1..] + b;
      ValidValuesAppend(a[1..], b, href, f, resolve);
      var value := VerifyAttrValue(a[0], href, f, resolve);
      AppendAssociates(if Truthy(value) then [value.value] else [], ValidValues(a[1..], href, f, resolve),
                       ValidValues(b, href, f, resolve));
    }
  }

  /** The number of elements with tag `tag`. */
  function CountTag(doc: Document, tag: string): nat
    decreases |doc|
  {
    if doc == [] then 0 else (if doc[0].tag == tag then 1 else 0) + CountTag(doc[1..], tag)
  }

  /** `_crawlOverElement(selector, attr, $, urlInfo, extensionRegExp)` with
      `href` for `urlInfo.href`: the valid values of every element with tag
      `selector`, concatenated in document order. With a named attribute
      each element contributes at most one value. */
  function CrawlOverElement(doc: Document, selector: string, attr: string, href: string, f: Filter,
                            resolve: (string, string) -> string): (r: seq<string>)
    ensures attr != "" ==> |r| <= CountTag(doc, selector)
    ensures forall x :: x in r ==> exists k :: 0 <= k < |doc| && doc[k].tag == selector
                                     && x in ValidValues(Considered(doc[k], attr), href, f, resolve)
    decreases |doc|
  {
    if doc == [] then []
    else
      var here := if doc[0].tag == selector then ValidValues(Considered(doc[0], attr), href, f, resolve) else [];
      var rest := CrawlOverElement(doc[1..], selector, attr, href, f, resolve);
      assert forall x :: x in rest ==> exists k :: 0 <= k < |doc| && doc[k].tag == selector
                                         && x in ValidValues(Considered(doc[k], attr), href, f, resolve) by {
        forall x | x in rest ensures exists k :: 0 <= k < |doc| && doc[k].tag == selector
                                         && x in ValidValues(Considered(doc[k], attr), href, f, resolve) {
          var k :| 0 <= k < |doc[1..]| && doc[1..][k].tag == selector
                   && x in ValidValues(Considered(doc[1..][k], attr), href, f, resolve);
          assert doc[k + 1] == doc[1..][k];
        }
      }
      here + rest
  }

  /** The element scan distributes over concatenation of documents: each
      element's values appear in document order. */
  lemma {:induction false} CrawlOverElementAppend(d1: Document, d2: Document, selector: string, attr: string,
                                                  href: string, f: Filter, resolve: (string, string) -> string)
    ensures CrawlOverElement(d1 + d2, selector, attr, href, f, resolve)
            == CrawlOverElement(d1, selector, attr, href, f, resolve) + CrawlOverElement(d2, selector, attr, href, f, resolve)
    decreases |d1|
  {
    if d1 == [] {
      assert d1 + d2 == d2;
    } else {
      assert (d1 + d2)[0] == d1[0];
      assert (d1 + d2)[1..] == d1[1..] + d2;
      CrawlOverElementAppend(d1[1..], d2, selector, attr, href, f, resolve);
      var here := if d1[0].tag == selector then ValidValues(Considered(d1[0], attr), href, f, resolve) else [];
      AppendAssociates(here, CrawlOverElement(d1[1..], selector, attr, href, f, resolve),
                       CrawlOverElement(d2, selector, attr, href, f, resolve));
    }
  }

  /** One element contributes exactly the valid values of its considered
      attributes when it has the selector's tag, and nothing otherwise. */
  lemma CrawlOverElementSingle(e: Element, selector: string, attr: string, href: string, f: Filter,
                               resolve: (string, string) -> string)
    ensures CrawlOverElement([e], selector, attr, href, f, resolve)
            == if e.tag == selector then ValidValues(Considered(e, attr), href, f, resolve) else []
  {
    assert [e][1..] == [];
  }

  /** Every valid value of every element with the selector's tag is kept. */
  lemma CrawlOverElementComplete(doc: Document, k: int, x: string, selector: string, attr: string, href: string,
                                 f: Filter, resolve: (string, string) -> string)
    requires 0 <= k < |doc| && doc[k].tag == selector
    requires x in ValidValues(Considered(doc[k], attr), href, f, resolve)
    ensures x in CrawlOverElement(doc, selector, attr, href, f, resolve)
  {
    var rest := [doc[k]] + doc[k + 1..];
    var before := CrawlOverElement(doc[..k], selector, attr, href, f, resolve);
    var here := CrawlOverElement([doc[k]], selector, attr, href, f, resolve);
    var after := CrawlOverElement(doc[k + 1..], selector, attr, href, f, resolve);
    assert x in here by {
      CrawlOverElementSingle(doc[k], selector, attr, href, f, resolve);
    }
    assert CrawlOverElement(rest, selector, attr, href, f, resolve) == here + after by {
      CrawlOverElementAppend([doc[k]], doc[k + 1..], selector, attr, href, f, resolve);
    }
    assert CrawlOverElement(doc, selector, attr, href, f, resolve) == before + (here + after) by {
      SplitAround(doc, k);
      CrawlOverElementAppend(doc[..k], rest, selector, attr, href, f, resolve);
    }
    assert x in before + (here + after);
  }

  /** `x` is what `_verifyAttrValue` makes of one considered attribute of
      an element of `doc` with tag `selector`. */
  ghost predicate FromElement(doc: Document, selector: string, attr: string, href: string, f: Filter,
                              resolve: (string, string) -> string, x: string)
  {
    exists k, v :: 0 <= k < |doc| && doc[k].tag == selector && v in Considered(doc[k], attr)
                   && VerifyAttrValue(v, href, f, resolve) == Some(x)
  }

  /** Every value of the scan comes from an element with the selector's tag. */
  lemma ScanOrigin(doc: Document, x: string, selector: string, attr: string, href: string, f: Filter,
                   resolve: (string, string) -> string)
    requires x in CrawlOverElement(doc, selector, attr, href, f, resolve)
    ensures FromElement(doc, selector, attr, href, f, resolve, x)
  {
    var k :| 0 <= k < |doc| && doc[k].tag == selector && x in ValidValues(Considered(doc[k], attr), href, f, resolve);
    var v :| v in Considered(doc[k], attr) && VerifyAttrValue(v, href, f, resolve) == Some(x);
  }

  /** `crawlOverLinkElements`: stylesheet, icon and image `href`s of
      `<link>`, each as `_verifyAttrValue` with the content filter gives it. */
  function CrawlOverLinkElements(doc: Document, info: UrlInfo, env: Env): (r: seq<string>)
    ensures |r| <= CountTag(doc, "link")
    ensures forall x :: x in r ==> FromElement(doc, "link", "href", info.href, ContentFilter, env.resolve, x)
  {
    var r := CrawlOverElement(doc, "link", "href", info.href, ContentFilter, env.resolve);
    forall x | x in r
      ensures FromElement(doc, "link", "href", info.href, ContentFilter, env.resolve, x)
    {
      ScanOrigin(doc, x, "link", "href", info.href, ContentFilter, env.resolve);
    }
    r
  }

  /** `crawlOverScriptElements`: `src`s of `<script>` that contain `js`. */
  function CrawlOverScriptElements(doc: Document, info: UrlInfo, env: Env): (r: seq<string>)
    ensures |r| <= CountTag(doc, "script")
    ensures forall x :: x in r ==> FromElement(doc, "script", "src", info.href, JsFilter, env.resolve, x)
  {
    var r := CrawlOverElement(doc, "script", "src", info.href, JsFilter, env.resolve);
    forall x | x in r
      ensures FromElement(doc, "script", "src", info.href, JsFilter, env.resolve, x)
    {
      ScanOrigin(doc, x, "script", "src", info.href, JsFilter, env.resolve);
    }
    r
  }

  /** `crawlOverAnchorElements`: every non-empty `href` of `<a>`, absolute
      or resolved against the page. */
  function CrawlOverAnchorElements(doc: Document, info: UrlInfo, env: Env): (r: seq<string>)
    ensures |r| <= CountTag(doc, "a")
    ensures forall x :: x in r ==> FromElement(doc, "a", "href", info.href, AnyFilter, env.resolve, x)
  {
    var r := CrawlOverElement(doc, "a", "href", info.href, AnyFilter, env.resolve);
    forall x | x in r
      ensures FromElement(doc, "a", "href", info.href, AnyFilter, env.resolve, x)
    {
      ScanOrigin(doc, x, "a", "href", info.href, AnyFilter, env.resolve);
    }
    r
  }

  /** `crawlOverImgElements`: image-like values of any attribute of `<img>`. */
  function CrawlOverImgElements(doc: Document, info: UrlInfo, env: Env): (r: seq<string>)
    ensures forall x :: x in r ==> FromElement(doc, "img", "", info.href, ImgFilter, env.resolve, x)
  {
    var r := CrawlOverElement(doc, "img", "", info.href, ImgFilter, env.resolve);
    forall x | x in r
      ensures FromElement(doc, "img", "", info.href, ImgFilter, env.resolve, x)
    {
      ScanOrigin(doc, x, "img", "", info.href, ImgFilter, env.resolve);
    }
    r
  }

  /** A `<script src="http://cdn.x/app.js">` yields its absolute `src`
      unchanged. */
  lemma ScriptAbsoluteSrcKept(v: string, info: UrlInfo, env: Env)
    requires v == "http://cdn.x/app.js"
    ensures CrawlOverScriptElements([Element("script", [("src", v)])], info, env) == [v]
  {
    AbsoluteScriptPasses(v, info.href, env.resolve);
    var e := Element("script", [("src", v)]);
    assert Considered(e, "src") == [Some(v)];
    ScanSingleValue(e, "src", v, v, info.href, JsFilter, env.resolve);
  }

  /** `http://cdn.x/app.js` passes the script filter and is kept as it is. */
  lemma AbsoluteScriptPasses(v: string, href: string, resolve: (string, string) -> string)
    requires v == "http://cdn.x/app.js"
    ensures VerifyAttrValue(Some(v), href, JsFilter, resolve) == Some(v)
  {
    LowerKeepsLowerCase(v);
    assert v[17..19] == "js";
    assert v[0..4] == "http";
    VerifyAbsolute(v, href, JsFilter, resolve, "js", 17);
  }

  /** A value that contains one of the filter's words passes it. */
  lemma MatchesByWord(f: Filter, v: string, w: string, j: int)
    requires w in Words(f) && |w| > 0 && OccursAt(Lower(v), w, j)
    ensures Matches(f, v)
  {
    ContainsWitness(Lower(v), w, j);
  }

  /** An absolute, filter-passing value is kept as it is. */
  lemma VerifyAbsolute(v: string, href: string, f: Filter, resolve: (string, string) -> string, w: string, j: int)
    requires w in Words(f) && |w| > 0 && OccursAt(Lower(v), w, j)
    requires OccursAt(Lower(v), "http", 0)
    ensures VerifyAttrValue(Some(v), href, f, resolve) == Some(v)
  {
    MatchesByWord(f, v, w, j);
  }

  /** A relative, filter-passing value is resolved against `href`. */
  lemma VerifyRelative(v: string, href: string, f: Filter, resolve: (string, string) -> string, w: string, j: int)
    requires w in Words(f) && |w| > 0 && OccursAt(Lower(v), w, j)
    requires v != "" && !OccursAt(Lower(v), "http", 0)
    ensures VerifyAttrValue(Some(v), href, f, resolve) == Some(resolve(href, v))
  {
    MatchesByWord(f, v, w, j);
  }

  lemma ScanSingleValue(e: Element, attr: string, v: string, out: string, href: string, f: Filter,
                        resolve: (string, string) -> string)
    requires Considered(e, attr) == [Some(v)]
    requires VerifyAttrValue(Some(v), href, f, resolve) == Some(out) && out != ""
    ensures CrawlOverElement([e], e.tag, attr, href, f, resolve) == [out]
  {
    assert [Some(v)][1..] == [];
    assert ValidValues([Some(v)], href, f, resolve) == [out];
    assert [e][1..] == [];
  }

  /** A `<link href="style.css">` yields `style.css` resolved against the
      page's href. */
  lemma LinkRelativeHrefResolved(v: string, info: UrlInfo, env: Env)
    requires v == "style.css" && env.resolve(info.href, v) != ""
    ensures CrawlOverLinkElements([Element("link", [("href", v)])], info, env) == [env.resolve(info.href, v)]
  {
    var out := env.resolve(info.href, v);
    assert VerifyAttrValue(Some(v), info.href, ContentFilter, env.resolve) == Some(out) by {
      LowerKeepsLowerCase(v);
      assert v[6..9] == "css";
      assert v[0..4][0] == 's';
      VerifyRelative(v, info.href, ContentFilter, env.resolve, "css", 6);
    }
    var e := Element("link", [("href", v)]);
    assert Considered(e, "href") == [Some(v)];
    ScanSingleValue(e, "href", v, out, info.href, ContentFilter, env.resolve);
  }

  /** An `<img data-src="pic.png">` is captured although the attribute is not
      `src`: every attribute of an image is scanned. */
  lemma ImgAnyAttributeCaptured(v: string, info: UrlInfo, env: Env)
    requires v == "pic.png" && env.resolve(info.href, v) != ""
    ensures CrawlOverImgElements([Element("img", [("data-src", v)])], info, env) == [env.resolve(info.href, v)]
  {
    var out := env.resolve(info.href, v);
    PicturePasses(v, info.href, env.resolve);
    var e := Element("img", [("data-src", v)]);
    assert Considered(e, "") == [Some(v)];
    ScanSingleValue(e, "", v, out, info.href, ImgFilter, env.resolve);
  }

  /** `pic.png` passes the image filter and is resolved against `href`. */
  lemma PicturePasses(v: string, href: string, resolve: (string, string) -> string)
    requires v == "pic.png" && resolve(href, v) != ""
    ensures VerifyAttrValue(Some(v), href, ImgFilter, resolve) == Some(resolve(href, v))
  {
    LowerKeepsLowerCase(v);
    assert v[4..7] == "png";
    assert v[0..4][0] == 'p';
    VerifyRelative(v, href, ImgFilter, resolve, "png", 4);
  }

  // ---------------------------------------------------------------------
  // Inline-style backgrounds (crawlOverElementsWithStyleAttribute)
  // ---------------------------------------------------------------------

  /** The element is matched by the selector `[style]`. */
  predicate HasStyleAttr(e: Element)
  {
    AttrValue(e.attrs, "style").Some?
  }

  /** `$(element).css(property)` on an element with a `style` attribute. */
  function Css(e: Element, property: string, env: Env): Option<string>
    requires HasStyleAttr(e)
  {
    env.css(AttrValue(e.attrs, "style").value, property)
  }

  /** When `background-image` is falsy and `background` truthy, the source
      takes `background.split('url(')[1]`, which throws unless `background`
      contains `url(`; only such backgrounds are modelled. */
  predicate BackgroundWellFormed(e: Element, env: Env)
  {
    HasStyleAttr(e) && !Truthy(Css(e, "background-image", env)) && Truthy(Css(e, "background", env))
    ==> Contains(Css(e, "background", env).value, "url(")
  }

  predicate DocumentWellFormed(doc: Document, env: Env)
  {
    forall k :: 0 <= k < |doc| ==> BackgroundWellFormed(doc[k], env)
  }

  /** The asset of a styled element: `background-image` when truthy;
      otherwise `background`, cut down to its `url(` argument. */
  function BackgroundImage(e: Element, env: Env): (r: Option<string>)
    requires HasStyleAttr(e) && BackgroundWellFormed(e, env)
    ensures Truthy(Css(e, "background-image", env)) ==> r == Css(e, "background-image", env)
    ensures !Truthy(Css(e, "background-image", env)) && Truthy(Css(e, "background", env)) ==>
              r.Some? && IsInfix(r.value, Css(e, "background", env).value) && ' ' !in r.value
              && OccursAt(Css(e, "background", env).value, r.value, IndexOf(Css(e, "background", env).value, "url(").value + |"url("|)
    ensures !Truthy(Css(e, "background-image", env)) && Truthy(Css(e, "background", env)) ==>
              r == Some(UrlArgument(Css(e, "background", env).value))
    ensures !Truthy(Css(e, "background-image", env)) && !Truthy(Css(e, "background", env)) ==>
              r == Css(e, "background", env)
  {
    var image := Css(e, "background-image", env);
    if Truthy(image) then image
    else
      var background := Css(e, "background", env);
      if Truthy(background) then
        UrlArgumentStarts(background.value);
        Some(UrlArgument(background.value))
      else background
  }

  /** The `url(` argument starts right after the first `url(`. */
  lemma UrlArgumentStarts(bg: string)
    requires Contains(bg, "url(")
    ensures OccursAt(bg, UrlArgument(bg), IndexOf(bg, "url(").value + |"url("|)
  {
    assert PieceUpTo(bg, "url(", " ", UrlArgument(bg));
  }

  /** `bg.split('url(')[1].split(' ')[0]`: the text after the first `url(`
      up to the first space, the next `url(` or the end of `bg`. */
  function UrlArgument(bg: string): (r: string)
    requires Contains(bg, "url(")
    ensures ' ' !in r && IsInfix(r, bg)
    ensures PieceUpTo(bg, "url(", " ", r)
  {
    var after := SplitSecond(bg, "url(").value;
    var r := SplitFirst(after, " ");
    NoOccurrenceOfChar(r, ' ');
    assert OccursAt(after, r, 0);
    InfixTransitive(r, after, bg);
    PieceUpToOfPiece(bg, "url(", " ", after, r);
    r
  }

  /** A character `_cssBackgroundClearRegExp` removes on its own. */
  predicate IsStripped(c: char)
  {
    c == '"' || c == '\'' || c == ')'
  }

  // `value.replace(/(url\(|"|\)|')/g, '')`: a left-to-right scan that drops
  // each `url(`, quote and closing parenthesis it meets.
  function StripBackground(s: string): (r: string)
    ensures |r| <= |s|
    decreases |s|
  {
    if |s| == 0 then ""
    else if OccursAt(s, "url(", 0) then StripBackground(s[4..])
    else if IsStripped(s[0]) then StripBackground(s[1..])
    else [s[0]] + StripBackground(s[1..])
  }

  /** No quote or closing parenthesis survives the clean-up. */
  lemma {:induction false} StripBackgroundRemovesQuotes(s: string)
    ensures forall k :: 0 <= k < |StripBackground(s)| ==> !IsStripped(StripBackground(s)[k])
    decreases |s|
  {
    if |s| > 0 {
      if OccursAt(s, "url(", 0) {
        StripBackgroundRemovesQuotes(s[4..]);
      } else {
        StripBackgroundRemovesQuotes(s[1..]);
      }
    }
  }

  /** A trailing quote or parenthesis is dropped without affecting the rest. */
  lemma {:induction false} StripBackgroundDropsTrailing(s: string, c: char)
    requires IsStripped(c)
    ensures StripBackground(s + [c]) == StripBackground(s)
    decreases |s|
  {
    var t := s + [c];
    if |s| == 0 {
      assert !OccursAt(t, "url(", 0);
    } else {
      assert OccursAt(t, "url(", 0) <==> OccursAt(s, "url(", 0) by {
        if |s| >= 4 {
          assert t[0..4] == s[0..4];
        } else if OccursAt(t, "url(", 0) {
          OccursAtLast(t, "url(", 0);
          assert false;
        }
      }
      if OccursAt(s, "url(", 0) {
        assert t[4..] == s[4..] + [c];
        StripBackgroundDropsTrailing(s[4..], c);
      } else {
        assert t[0] == s[0];
        assert t[1..] == s[1..] + [c];
        StripBackgroundDropsTrailing(s[1..], c);
      }
    }
  }

  /** Text with nothing to remove is left unchanged. */
  lemma {:induction false} StripBackgroundKeepsClean(s: string)
    requires forall k :: 0 <= k < |s| ==> !IsStripped(s[k])
    requires forall i :: !OccursAt(s, "url(", i)
    ensures StripBackground(s) == s
    decreases |s|
  {
    if |s| > 0 {
      assert !OccursAt(s, "url(", 0);
      OccursAtTail(s, "url(");
      assert forall i :: !OccursAt(s[1..], "url(", i) by {
        forall i ensures !OccursAt(s[1..], "url(", i) {
          assert !OccursAt(s, "url(", i + 1);
        }
      }
      StripBackgroundKeepsClean(s[1..]);
      assert s == [s[0]] + s[1..];
    }
  }

  lemma StripBackgroundSkipsUrl(rest: string)
    ensures StripBackground("url(" + rest) == StripBackground(rest)
  {
    var s := "url(" + rest;
    assert OccursAt(s, "url(", 0);
    assert s[4..] == rest;
  }

  lemma StripBackgroundSkipsLeading(c: char, rest: string)
    requires IsStripped(c)
    ensures StripBackground([c] + rest) == StripBackground(rest)
  {
    var s := [c] + rest;
    assert s[0] == c && s[1..] == rest;
    assert !OccursAt(s, "url(", 0);
  }

  predicate IsQuote(quote: string)
  {
    quote == "" || quote == "\"" || quote == "'"
  }

  lemma StripBackgroundOpening(x: string, quote: string)
    requires IsQuote(quote)
    ensures StripBackground("url(" + quote + x + quote + ")") == StripBackground(x + quote + ")")
  {
    var tail := x + quote + ")";
    assert StripBackground("url(" + quote + x + quote + ")") == StripBackground(quote + tail) by {
      assert "url(" + quote + x + quote + ")" == "url(" + (quote + tail);
      StripBackgroundSkipsUrl(quote + tail);
    }
    if quote == "" {
      assert quote + tail == tail;
    } else {
      assert quote == [quote[0]];
      StripBackgroundSkipsLeading(quote[0], tail);
    }
  }

  lemma StripBackgroundClosing(x: string, quote: string)
    requires IsQuote(quote)
    ensures StripBackground(x + quote + ")") == StripBackground(x)
  {
    assert x + quote + ")" == (x + quote) + [')'];
    StripBackgroundDropsTrailing(x + quote, ')');
    if quote == "" {
      assert x + quote == x;
    } else {
      assert x + quote == x + [quote[0]];
      StripBackgroundDropsTrailing(x, quote[0]);
    }
  }

  /** A background written `url(x)`, `url("x")` or `url('x')` comes out as
      `x`, provided `x` itself holds nothing the clean-up removes. */
  lemma StripBackgroundUnwrapsUrl(x: string, quote: string)
    requires IsQuote(quote)
    requires forall k :: 0 <= k < |x| ==> !IsStripped(x[k])
    requires forall i :: !OccursAt(x, "url(", i)
    ensures StripBackground("url(" + quote + x + quote + ")") == x
  {
    StripBackgroundOpening(x, quote);
    StripBackgroundClosing(x, quote);
    StripBackgroundKeepsClean(x);
  }

  /** The `$('[style]').each` callback of `crawlOverElementsWithStyleAttribute`
      for one element: the cleaned background url, passed
      through `_verifyAttrValue` against the page ORIGIN (not its full href
      as for the other elements), when that yields a truthy value. */
  function StyleAsset(e: Element, origin: string, env: Env): (r: Option<string>)
    requires BackgroundWellFormed(e, env)
    ensures r.Some? ==> r.value != "" && HasStyleAttr(e) && Truthy(BackgroundImage(e, env))
    ensures r.Some? ==> r == VerifyAttrValue(Some(StripBackground(BackgroundImage(e, env).value)), origin, AnyFilter, env.resolve)
    ensures HasStyleAttr(e) && Truthy(BackgroundImage(e, env))
            && Truthy(VerifyAttrValue(Some(StripBackground(BackgroundImage(e, env).value)), origin, AnyFilter, env.resolve))
            ==> r.Some?
  {
    if !HasStyleAttr(e) then None
    else
      var image := BackgroundImage(e, env);
      if Truthy(image) then
        var valid := VerifyAttrValue(Some(StripBackground(image.value)), origin, AnyFilter, env.resolve);
        if Truthy(valid) then valid else None
      else None
  }

  /** `crawlOverElementsWithStyleAttribute($, urlInfo)`. */
  function CrawlOverElementsWithStyleAttribute(doc: Document, info: UrlInfo, env: Env): (r: seq<string>)
    requires DocumentWellFormed(doc, env)
    ensures |r| <= |doc|
    ensures forall x :: x in r ==> exists k :: 0 <= k < |doc| && StyleAsset(doc[k], info.origin, env) == Some(x)
    ensures forall k :: 0 <= k < |doc| && StyleAsset(doc[k], info.origin, env).Some? ==>
              StyleAsset(doc[k], info.origin, env).value in r
    decreases |doc|
  {
    if doc == [] then []
    else
      var here := StyleAsset(doc[0], info.origin, env);
      var rest := CrawlOverElementsWithStyleAttribute(doc[1..], info, env);
      var out := (if here.Some? then [here.value] else []) + rest;
      StyleScanCons(doc, info, env, here, rest, out);
      out
  }

  /** The first element's asset, followed by the assets of the rest, are
      the assets of the whole document. */
  lemma StyleScanCons(doc: Document, info: UrlInfo, env: Env, here: Option<string>, rest: seq<string>, out: seq<string>)
    requires doc != [] && DocumentWellFormed(doc, env)
    requires here == StyleAsset(doc[0], info.origin, env)
    requires out == (if here.Some? then [here.value] else []) + rest
    requires forall x :: x in rest ==> exists k :: 0 <= k < |doc[1..]| && StyleAsset(doc[1..][k], info.origin, env) == Some(x)
    requires forall k :: 0 <= k < |doc[1..]| && StyleAsset(doc[1..][k], info.origin, env).Some? ==>
               StyleAsset(doc[1..][k], info.origin, env).value in rest
    ensures forall x :: x in out ==> exists k :: 0 <= k < |doc| && StyleAsset(doc[k], info.origin, env) == Some(x)
    ensures forall k :: 0 <= k < |doc| && StyleAsset(doc[k], info.origin, env).Some? ==>
              StyleAsset(doc[k], info.origin, env).value in out
  {
    assert forall k :: 1 <= k < |doc| ==> doc[k] == doc[1..][k - 1];
  }

  /** One element contributes exactly its `StyleAsset`, if it has one. */
  lemma StyleScanSingle(e: Element, info: UrlInfo, env: Env)
    requires BackgroundWellFormed(e, env)
    ensures DocumentWellFormed([e], env)
    ensures CrawlOverElementsWithStyleAttribute([e], info, env)
            == if StyleAsset(e, info.origin, env).Some? then [StyleAsset(e, info.origin, env).value] else []
  {
    assert [e][1..] == [];
  }

  lemma {:induction false} StyleScanAppend(d1: Document, d2: Document, info: UrlInfo, env: Env)
    requires DocumentWellFormed(d1, env) && DocumentWellFormed(d2, env)
    ensures DocumentWellFormed(d1 + d2, env)
    ensures CrawlOverElementsWithStyleAttribute(d1 + d2, info, env)
            == CrawlOverElementsWithStyleAttribute(d1, info, env) + CrawlOverElementsWithStyleAttribute(d2, info, env)
    decreases |d1|
  {
    assert forall k :: 0 <= k < |d1 + d2| ==> (d1 + d2)[k] == if k < |d1| then d1[k] else d2[k - |d1|];
    if d1 == [] {
      assert d1 + d2 == d2;
    } else {
      assert (d1 + d2)[0] == d1[0];
      assert (d1 + d2)[1..] == d1[1..] + d2;
      StyleScanAppend(d1[1..], d2, info, env);
    }
  }

  /** An inline `background-image: url("x")` with a relative `x` becomes
      `x` resolved against the page origin. */
  lemma BackgroundImageResolvedAgainstOrigin(e: Element, x: string, quote: string, origin: string, env: Env)
    requires HasStyleAttr(e)
    requires Css(e, "background-image", env) == Some("url(" + quote + x + quote + ")")
    requires IsQuote(quote)
    requires forall k :: 0 <= k < |x| ==> !IsStripped(x[k])
    requires forall i :: !OccursAt(x, "url(", i)
    requires x != "" && !StartsWithCI(x, "http") && env.resolve(origin, x) != ""
    ensures StyleAsset(e, origin, env) == Some(env.resolve(origin, x))
  {
    StripBackgroundUnwrapsUrl(x, quote);
  }

  // ---------------------------------------------------------------------
  // _crawlPage and crawlPage
  // ---------------------------------------------------------------------

  /** `new URL(link).origin === urlInfo.origin`, false when `new URL` throws. */
  function IsSameOrigin(link: string, origin: string, parse: string -> Option<UrlInfo>): (r: bool)
    ensures parse(link).None? ==> !r
    ensures parse(link).Some? ==> (r <==> parse(link).value.origin == origin)
  {
    parse(link).Some? && parse(link).value.origin == origin
  }

  /** `a` can be obtained from `b` by deleting elements. */
  ghost predicate IsSubsequence<T>(a: seq<T>, b: seq<T>)
    decreases |b|
  {
    a == [] || (b != [] && ((a[0] == b[0] && IsSubsequence(a[1..], b[1..])) || IsSubsequence(a, b[1..])))
  }

  /** The `reduce` over `crawlOverAnchorElements` in `crawlPage`: the links whose origin is `origin`, in
      their order; a link that does not parse is dropped. */
  function SameOriginLinks(links: seq<string>, origin: string, parse: string -> Option<UrlInfo>): (r: seq<string>)
    ensures forall x :: x in r <==> x in links && IsSameOrigin(x, origin, parse)
    ensures IsSubsequence(r, links)
    ensures forall x :: multiset(r)[x] == if IsSameOrigin(x, origin, parse) then multiset(links)[x] else 0
    decreases |links|
  {
    if links == [] then []
    else
      var rest := SameOriginLinks(links[1..], origin, parse);
      assert forall x :: x in links <==> x == links[0] || x in links[1..];
      assert links == [links[0]] + links[1..];
      assert multiset(links) == multiset([links[0]]) + multiset(links[1..]);
      if IsSameOrigin(links[0], origin, parse) then [links[0]] + rest
      else rest
  }

  /** `_crawlPage(urlInfo, $)`: the page's details and its same-origin links. */
  function CrawlPageDocument(info: UrlInfo, doc: Document, env: Env): (r: CrawledPage)
    requires DocumentWellFormed(doc, env)
    ensures r.details.url == info.href
    ensures r.details.assets == CrawlOverLinkElements(doc, info, env) + CrawlOverScriptElements(doc, info, env)
                              + CrawlOverImgElements(doc, info, env) + CrawlOverElementsWithStyleAttribute(doc, info, env)
    ensures forall x :: x in r.links <==> x in CrawlOverAnchorElements(doc, info, env) && IsSameOrigin(x, info.origin, env.parse)
    ensures IsSubsequence(r.links, CrawlOverAnchorElements(doc, info, env))
    ensures r.links == SameOriginLinks(CrawlOverAnchorElements(doc, info, env), info.origin, env.parse)
  {
    var assets := CrawlOverLinkElements(doc, info, env) + CrawlOverScriptElements(doc, info, env)
                  + CrawlOverImgElements(doc, info, env) + CrawlOverElementsWithStyleAttribute(doc, info, env);
    var links := SameOriginLinks(CrawlOverAnchorElements(doc, info, env), info.origin, env.parse);
    CrawledPage(PageDetails(info.href, assets), links)
  }

  /** An element without a `style` attribute contributes nothing to the
      background scan. */
  lemma StyleScanSkipsUnstyled(e: Element, info: UrlInfo, env: Env)
    requires !HasStyleAttr(e)
    ensures DocumentWellFormed([e], env)
    ensures CrawlOverElementsWithStyleAttribute([e], info, env) == []
  {
    assert [e][1..] == [];
  }

  /** Adding an anchor without a `style` attribute to a page leaves its
      assets unchanged: anchors only ever feed the links. */
  lemma AnchorsAreNotAssets(doc: Document, anchor: Element, info: UrlInfo, env: Env)
    requires DocumentWellFormed(doc, env)
    requires anchor.tag == "a" && !HasStyleAttr(anchor)
    ensures DocumentWellFormed(doc + [anchor], env)
    ensures CrawlPageDocument(info, doc + [anchor], env).details.assets == CrawlPageDocument(info, doc, env).details.assets
  {
    var one := [anchor];
    assert CrawlOverLinkElements(doc + one, info, env) == CrawlOverLinkElements(doc, info, env) by {
      CrawlOverElementAppend(doc, one, "link", "href", info.href, ContentFilter, env.resolve);
      CrawlOverElementSingle(anchor, "link", "href", info.href, ContentFilter, env.resolve);
    }
    assert CrawlOverScriptElements(doc + one, info, env) == CrawlOverScriptElements(doc, info, env) by {
      CrawlOverElementAppend(doc, one, "script", "src", info.href, JsFilter, env.resolve);
      CrawlOverElementSingle(anchor, "script", "src", info.href, JsFilter, env.resolve);
    }
    assert CrawlOverImgElements(doc + one, info, env) == CrawlOverImgElements(doc, info, env) by {
      CrawlOverElementAppend(doc, one, "img", "", info.href, ImgFilter, env.resolve);
      CrawlOverElementSingle(anchor, "img", "", info.href, ImgFilter, env.resolve);
    }
    StyleScanSkipsUnstyled(anchor, info, env);
    StyleScanAppend(doc, one, info, env);
  }

  /** The fetch succeeded with status 200 for a url that parses. */
  predicate Fetched(url: Option<string>, fetch: string -> FetchOutcome, env: Env)
  {
    && url.Some? && env.parse(url.value).Some?
    && fetch(url.value).Response? && fetch(url.value).statusCode == 200
  }

  /** `crawlPage(url)` followed by the message it sends: the crawled page for
      a 200 response, and an empty `nextTask` for an unparsable or absent
      url, a request error or any other status. */
  function CrawlPage(url: Option<string>, fetch: string -> FetchOutcome, env: Env): (r: Message)
    requires Fetched(url, fetch, env) ==> DocumentWellFormed(fetch(url.value).body, env)
    ensures r.kind == NextTask
    ensures r.page.Some? <==> Fetched(url, fetch, env)
    ensures r.page.Some? ==> r.page.value == CrawlPageDocument(env.parse(url.value).value, fetch(url.value).body, env)
  {
    if url.None? then Message(NextTask, None)
    else match env.parse(url.value)
      case None => Message(NextTask, None)
      case Some(info) =>
        match fetch(url.value)
        case RequestError => Message(NextTask, None)
        case Response(status, body) =>
          if status == 200 then Message(NextTask, Some(CrawlPageDocument(info, body, env)))
          else Message(NextTask, None)
  }

  /** `crawlNextPage()`: the request a worker sends once it is up. */
  function CrawlNextPage(): (r: Message)
    ensures r.kind == FirstTask && r.kind != NextTask
    ensures r.page.None?
  {
    Message(FirstTask, None)
  }

}
