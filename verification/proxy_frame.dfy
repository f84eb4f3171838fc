/** The frame that shows a relayed page: it fetches the relay URL, rewrites
    the page's relative links, images, scripts and stylesheets against the
    page's own address, and shows a spinner, an error panel or the page.

    The HTML parser and serializer and the browser's URL parser are
    parameters (`HtmlOps`); a parsed document is the flat list of its
    elements in document order, each a lower-case tag name and its
    attributes. */
module ProxyFrame {
  import opened Wrappers
  import opened JsString

  datatype Element = Element(tag: string, attrs: map<string, string>)

  type Document = seq<Element>

  /** What the browser supplies: `DOMParser` and `outerHTML`, `new URL(base)`
      (None when it throws, else the parsed base) and `new URL(value, base).href`
      (None when it throws). */
  datatype HtmlOps = HtmlOps(
    parse: string -> Document,
    serialize: Document -> string,
    parseBase: string -> Option<string>,
    resolve: (string, string) -> Option<string>)

  // ----- fixRelativeUrl ------------------------------------------------------

  /** The guard of `fixRelativeUrl`: the value is non-empty and starts with
      neither `http` nor `data:`. The bare `http` test also skips relative
      paths such as `httpdocs/a.html`. */
  predicate ShouldRewrite(v: string): (b: bool)
    ensures StartsWith(v, "http://") || StartsWith(v, "https://") ==> !b
    ensures |v| > 0 && (v[0] == '/' || v[0] == '.' || v[0] == '#' || v[0] == '?') ==> b
    ensures b ==> v != ""
  {
    v != "" && !StartsWith(v, "http") && !StartsWith(v, "data:")
  }

  /** The value an attribute should end with: the resolved address when the
      guard lets it through and resolution succeeds, otherwise the value
      itself. */
  function FixedValue(v: string, base: string, ops: HtmlOps): string {
    if ShouldRewrite(v) && ops.resolve(v, base).Some? then ops.resolve(v, base).value else v
  }

  /** `fixRelativeUrl(element, attribute)`: rewrites that one attribute, or
      leaves the element as it is when the attribute is absent, fails the
      guard, or cannot be resolved. */
  function FixRelativeUrl(e: Element, attr: string, base: string, ops: HtmlOps): (r: Element)
    ensures r.tag == e.tag
    ensures r.attrs.Keys == e.attrs.Keys
    ensures forall a :: a in e.attrs && a != attr ==> r.attrs[a] == e.attrs[a]
    ensures attr in e.attrs ==> r.attrs[attr] == FixedValue(e.attrs[attr], base, ops)
    ensures r != e ==>
              attr in e.attrs && ShouldRewrite(e.attrs[attr]) && ops.resolve(e.attrs[attr], base).Some?
  {
    if attr in e.attrs && ShouldRewrite(e.attrs[attr]) then
      match ops.resolve(e.attrs[attr], base)
      case Some(absolute) => e.(attrs := e.attrs[attr := absolute])
      case None => e
    else e
  }

  /** `img.removeAttribute('srcset')` when present. */
  function DropSrcset(e: Element): (r: Element)
    ensures r.tag == e.tag && "srcset" !in r.attrs
    ensures r.attrs == e.attrs - {"srcset"}
  {
    if "srcset" in e.attrs then e.(attrs := e.attrs - {"srcset"}) else e
  }

  // ----- the four passes ------------------------------------------------------

  /** One `querySelectorAll(tag).forEach(fix)` pass: every element with that
      tag is replaced by `fix` of it, every other element is kept. */
  function Pass(doc: Document, tag: string, fix: Element -> Element): (r: Document)
    ensures |r| == |doc|
    ensures forall i :: 0 <= i < |doc| ==> r[i] == (if doc[i].tag == tag then fix(doc[i]) else doc[i])
    ensures KeepsTag(fix) ==> forall i :: 0 <= i < |doc| ==> r[i].tag == doc[i].tag
  {
    seq(|doc|, i requires 0 <= i < |doc| => if doc[i].tag == tag then fix(doc[i]) else doc[i])
  }

  /** A fix that never changes an element's tag name. */
  ghost predicate KeepsTag(fix: Element -> Element) {
    forall e :: fix(e).tag == e.tag
  }

  lemma FixesKeepTags(base: string, ops: HtmlOps)
    ensures KeepsTag(FixLink(base, ops)) && KeepsTag(FixImage(base, ops)) && KeepsTag(FixScript(base, ops))
  {
  }

  function FixLink(base: string, ops: HtmlOps): Element -> Element {
    e => FixRelativeUrl(e, "href", base, ops)
  }

  function FixImage(base: string, ops: HtmlOps): Element -> Element {
    e => DropSrcset(FixRelativeUrl(e, "src", base, ops))
  }

  function FixScript(base: string, ops: HtmlOps): Element -> Element {
    e => FixRelativeUrl(e, "src", base, ops)
  }

  /** The body of `processHtml` once the base has parsed: links, then
      images, then scripts, then `link` elements. */
  function RewriteDocument(doc: Document, base: string, ops: HtmlOps): (r: Document)
    ensures |r| == |doc|
    ensures forall i :: 0 <= i < |doc| ==> r[i].tag == doc[i].tag
  {
    FixesKeepTags(base, ops);
    var links := Pass(doc, "a", FixLink(base, ops));
    var images := Pass(links, "img", FixImage(base, ops));
    var scripts := Pass(images, "script", FixScript(base, ops));
    Pass(scripts, "link", FixLink(base, ops))
  }

  /** `processHtml(html, baseUrl)`: when the base does not parse, the html
      comes back unchanged; otherwise it is the serialization of a document
      rewritten element by element (see `RewriteDocumentSpec`). */
  function ProcessHtml(html: string, baseUrl: string, ops: HtmlOps): (r: string)
    ensures ops.parseBase(baseUrl).None? ==> r == html
    ensures ops.parseBase(baseUrl).Some? ==>
              exists out :: r == ops.serialize(out)
                            && Rewritten(ops.parse(html), out, ops.parseBase(baseUrl).value, ops)
  {
    match ops.parseBase(baseUrl)
    case None => html
    case Some(base) =>
      var out := RewriteDocument(ops.parse(html), base, ops);
      RewriteDocumentSpec(ops.parse(html), base, ops);
      ops.serialize(out)
  }

  // ----- the rewrite, element by element -----------------------------------------

  /** The attribute the rewriter treats as an address for each tag. */
  function UrlAttribute(tag: string): Option<string> {
    if tag == "a" || tag == "link" then Some("href")
    else if tag == "img" || tag == "script" then Some("src")
    else None
  }

  /** The relation between an element and its rewritten form: the same tag;
      for a tag with no address attribute, nothing changes; otherwise the
      address attribute is present exactly when it was and holds its fixed
      value, an `img` has lost its `srcset`, and every other attribute is as
      it was. */
  predicate ElementRewritten(e: Element, out: Element, base: string, ops: HtmlOps) {
    match UrlAttribute(e.tag)
    case None => out == e
    case Some(k) =>
      var touched := if e.tag == "img" then {k, "srcset"} else {k};
      && out.tag == e.tag
      && out.attrs - touched == e.attrs - touched
      && (e.tag == "img" ==> "srcset" !in out.attrs)
      && (k in out.attrs <==> k in e.attrs)
      && (k in e.attrs ==> out.attrs[k] == FixedValue(e.attrs[k], base, ops))
  }

  /** The relation between a document and its rewritten form: the same
      number of elements, and each rewritten in place. */
  predicate Rewritten(doc: Document, out: Document, base: string, ops: HtmlOps) {
    |out| == |doc| && forall i :: 0 <= i < |doc| ==> ElementRewritten(doc[i], out[i], base, ops)
  }

  /** The rewrite of one element, whatever pass it belongs to. */
  function RewriteElement(e: Element, base: string, ops: HtmlOps): (r: Element)
    ensures ElementRewritten(e, r, base, ops)
  {
    if e.tag == "a" || e.tag == "link" then FixRelativeUrl(e, "href", base, ops)
    else if e.tag == "img" then DropSrcset(FixRelativeUrl(e, "src", base, ops))
    else if e.tag == "script" then FixRelativeUrl(e, "src", base, ops)
    else e
  }

  /** Each element has exactly one rewritten form. */
  lemma ElementRewrittenUnique(e: Element, x: Element, y: Element, base: string, ops: HtmlOps)
    requires ElementRewritten(e, x, base, ops) && ElementRewritten(e, y, base, ops)
    ensures x == y
  {
    match UrlAttribute(e.tag)
    case None =>
    case Some(k) =>
      var touched := if e.tag == "img" then {k, "srcset"} else {k};
      forall a | a in x.attrs
        ensures a in y.attrs && x.attrs[a] == y.attrs[a]
      {
        if a !in touched {
          assert a in x.attrs - touched;
        }
      }
      forall a | a in y.attrs
        ensures a in x.attrs
      {
        if a !in touched {
          assert a in y.attrs - touched;
        }
      }
      assert x.attrs == y.attrs;
  }

  /** The four passes amount to rewriting every element on its own: a pass
      only touches elements of its tag, and the tags are distinct. */
  lemma RewriteDocumentIsElementwise(doc: Document, base: string, ops: HtmlOps)
    ensures var out := RewriteDocument(doc, base, ops);
            |out| == |doc| && forall i :: 0 <= i < |doc| ==> out[i] == RewriteElement(doc[i], base, ops)
  {
    FixesKeepTags(base, ops);
    var links := Pass(doc, "a", FixLink(base, ops));
    var images := Pass(links, "img", FixImage(base, ops));
    var scripts := Pass(images, "script", FixScript(base, ops));
    var out := Pass(scripts, "link", FixLink(base, ops));
    forall i | 0 <= i < |doc|
      ensures out[i] == RewriteElement(doc[i], base, ops)
    {
      assert links[i].tag == doc[i].tag;
      assert images[i].tag == doc[i].tag;
      assert scripts[i].tag == doc[i].tag;
    }
  }

  /** What `processHtml` does to the parsed document: it neither adds,
      removes nor reorders elements, and rewrites each one as
      `ElementRewritten` says; in particular no image keeps a `srcset` and
      elements other than a, img, script and link are untouched. */
  lemma RewriteDocumentSpec(doc: Document, base: string, ops: HtmlOps)
    ensures var out := RewriteDocument(doc, base, ops);
            && Rewritten(doc, out, base, ops)
            && (forall i :: 0 <= i < |out| && out[i].tag == "img" ==> "srcset" !in out[i].attrs)
            && (forall i :: 0 <= i < |out| && UrlAttribute(doc[i].tag).None? ==> out[i] == doc[i])
  {
    RewriteDocumentIsElementwise(doc, base, ops);
  }

  /** A rewritten document is determined by the input: any document related
      to `doc` by `Rewritten` is the one the passes produce. */
  lemma RewrittenIsRewriteDocument(doc: Document, out: Document, base: string, ops: HtmlOps)
    requires Rewritten(doc, out, base, ops)
    ensures out == RewriteDocument(doc, base, ops)
  {
    var mine := RewriteDocument(doc, base, ops);
    RewriteDocumentSpec(doc, base, ops);
    forall i | 0 <= i < |doc|
      ensures out[i] == mine[i]
    {
      ElementRewrittenUnique(doc[i], out[i], mine[i], base, ops);
    }
  }

  /** The guard on sample values: a root-relative path is rewritten, an
      absolute address and a data URL are not, and neither is a relative
      path that happens to begin with `http`. */
  lemma GuardExamples()
    ensures ShouldRewrite("/x")
    ensures !ShouldRewrite("https://other.com/y")
    ensures !ShouldRewrite("data:image/png;base64,AAAA")
    ensures !ShouldRewrite("httpdocs/a.html")
    ensures !ShouldRewrite("")
  {
    assert "https://other.com/y"[..4] == "http";
    assert "data:image/png;base64,AAAA"[..5] == "data:";
    assert "httpdocs/a.html"[..4] == "http";
  }

  // ----- fetching and showing ----------------------------------------------------

  /** What the fetch produced: a response (whose body was read), or a
      rejection carrying the thrown value's message when it was an `Error`. */
  datatype FetchOutcome =
    | Response(ok: bool, status: nat, statusText: string, body: string)
    | Rejected(message: Option<string>)

  datatype FrameState = FrameState(content: string, error: Option<string>, isLoading: bool)

  /** The state on mount: nothing fetched yet, loading, so the spinner shows. */
  function FrameInitial(): (s: FrameState)
    ensures View(s) == Spinner && s.content == ""
  {
    FrameState("", None, true)
  }

  /** The error text for a response that is not ok. */
  function StatusMessage(status: nat, statusText: string): (m: string)
    ensures StartsWith(m, "Failed to fetch content: ")
  {
    "Failed to fetch content: " + NatToDecimal(status) + " " + statusText
  }

  /** The message of whatever was thrown: an `Error`'s own message, or the
      fixed fallback. */
  function CaughtMessage(message: Option<string>): (m: string)
    ensures message.None? ==> m == "Failed to fetch content"
    ensures m == "" <==> message == Some("")
    ensures message.Some? ==> Some(m) == message
  {
    match message
    case Some(m) => m
    case None => "Failed to fetch content"
  }

  /** The synchronous start of `fetchContent`: loading on, error cleared. */
  function FrameBegin(s: FrameState): (r: FrameState)
    ensures r.isLoading && r.error == None && r.content == s.content
  {
    s.(isLoading := true, error := None)
  }

  /** The end of `fetchContent`, given the fetch outcome: an ok response sets
      the content to the processed body; a response that is not ok sets the
      status error and leaves the content; a rejection sets its message.
      Loading ends in every case. */
  function FrameSettle(s: FrameState, outcome: FetchOutcome, originalUrl: string, ops: HtmlOps): (r: FrameState)
    ensures !r.isLoading
    ensures outcome.Response? && outcome.ok ==>
              r.content == ProcessHtml(outcome.body, originalUrl, ops) && r.error == s.error
    ensures outcome.Response? && !outcome.ok ==>
              r.content == s.content
              && r.error == Some(StatusMessage(outcome.status, outcome.statusText))
    ensures outcome.Rejected? ==>
              r.content == s.content
              && (outcome.message.Some? ==> r.error == outcome.message)
              && (outcome.message.None? ==> r.error == Some("Failed to fetch content"))
  {
    var settled :=
      match outcome
      case Response(ok, status, statusText, body) =>
        if ok then s.(content := ProcessHtml(body, originalUrl, ops))
        else s.(error := Some(StatusMessage(status, statusText)))
      case Rejected(message) => s.(error := Some(CaughtMessage(message)));
    settled.(isLoading := false)
  }

  /** What the frame renders. */
  datatype FrameView = Spinner | ErrorPanel(message: string) | Iframe(srcDoc: string)

  /** The spinner while loading, else the error panel when the error is
      truthy, else the iframe with the content. */
  function View(s: FrameState): (v: FrameView)
    ensures v.Spinner? <==> s.isLoading
    ensures v.ErrorPanel? <==> !s.isLoading && IsTruthy(s.error)
    ensures v.ErrorPanel? ==> Some(v.message) == s.error
    ensures v.Iframe? ==> v.srcDoc == s.content
  {
    if s.isLoading then Spinner
    else if IsTruthy(s.error) then ErrorPanel(s.error.value)
    else Iframe(s.content)
  }

  /** One fetch from any state: the spinner shows until it settles; then an
      ok response shows the processed page, a response that is not ok shows
      its status message, and a rejection shows its message when that is
      non-empty. */
  lemma FetchShows(s: FrameState, outcome: FetchOutcome, originalUrl: string, ops: HtmlOps)
    ensures View(FrameBegin(s)) == Spinner
    ensures var v := View(FrameSettle(FrameBegin(s), outcome, originalUrl, ops));
            && (outcome.Response? && outcome.ok ==> v == Iframe(ProcessHtml(outcome.body, originalUrl, ops)))
            && (outcome.Response? && !outcome.ok ==>
                  v == ErrorPanel(StatusMessage(outcome.status, outcome.statusText)))
            && (outcome.Rejected? && outcome.message.None? ==> v == ErrorPanel("Failed to fetch content"))
            && (outcome.Rejected? && outcome.message.Some? && outcome.message.value != "" ==>
                  v == ErrorPanel(outcome.message.value))
            && (outcome.Rejected? && outcome.message == Some("") ==> v == Iframe(s.content))
  {
    var b := FrameBegin(s);
    var r := FrameSettle(b, outcome, originalUrl, ops);
    if outcome.Response? && !outcome.ok {
      var m := StatusMessage(outcome.status, outcome.statusText);
      assert m[0] == 'F';
    }
  }

  /** The status error is the fixed prefix, the status code in decimal (the
      digits read back to the code, with no leading zero), a space and the
      status text. */
  lemma StatusMessageFormat(status: nat, statusText: string)
    ensures exists d :: IsDecimal(d) && DecimalValue(d) == status
                        && StatusMessage(status, statusText) == "Failed to fetch content: " + d + " " + statusText
  {
    var d := NatToDecimal(status);
    DecimalRoundTrip(status);
    if status == 0 {
      assert d == "0";
    }
    assert IsDecimal(d) && DecimalValue(d) == status;
  }

  /** A 404 "Not Found" response shows "Failed to fetch content: 404 Not Found". */
  lemma NotFoundMessage()
    ensures StatusMessage(404, "Not Found") == "Failed to fetch content: 404 Not Found"
  {
    assert NatToDecimal(404) == "404" by {
      assert NatToDecimal(40) == "40" by {
        assert NatToDecimal(4) == "4";
      }
    }
  }
}
