/**
 * The `POST /api/fetch-url` endpoint: it reads `{ url }` from the request,
 * checks it is an http or https URL, fetches the page, requires an HTML
 * content type, and answers with the page's title and article text, or
 * with an error status and message.
 *
 * The request body, URL parsing and the network are inputs: the parsed body
 * (or the message `request.json()` threw), the protocol `new URL` reports
 * (None when it throws) and what `fetch` produced for the URL.
 */
module FetchHandler {
  import opened Wrappers
  import opened JsText
  import opened Json
  import opened ArticleExtract

  /** What `await context.request.json()` produced. */
  datatype BodyOutcome = BodyParsed(v: Json) | BodyThrew(message: JsStr)

  /**
   * What fetching the page produced: `Unreachable` when `fetch` or reading
   * the body threw (with the error's message), otherwise the status, the
   * `content-type` header (None when absent) and the body text.
   */
  datatype Fetched =
    | Unreachable(message: JsStr)
    | Responded(status: int, contentType: Option<JsStr>, html: JsStr)

  /**
   * The outside world as the handler sees it. `nullMessage` is the
   * message of the TypeError that destructuring a null body raises.
   */
  datatype Env = Env(
    protocolOf: JsStr -> Option<JsStr>,
    fetch: JsStr -> Fetched,
    finders: Finders,
    nullMessage: JsStr)

  /** The response: the JSON document of a 200, or an error status with its message. */
  datatype Reply =
    | Extracted(title: JsStr, text: JsStr, sourceUrl: JsStr)
    | Failure(status: nat, error: JsStr)

  /** Pages whose extracted text is shorter than this are refused. */
  const MinTextLength := 50

  /** `m || d` for a message string. */
  function OrElse(m: JsStr, d: JsStr): (r: JsStr)
    ensures |r| > 0 <== |m| > 0 || |d| > 0
    ensures |m| > 0 ==> r == m
  {
    if |m| > 0 then m else d
  }

  /** `Response.ok`: a status in the range 200 to 299. */
  predicate HttpOk(status: int)
  {
    200 <= status <= 299
  }

  /** `url` from `const { url } = body`, when it is a non-empty string. */
  function UrlField(v: Json): (r: Option<JsStr>)
    ensures r.Some? <==> Get(v, Lit("url")).Some? && Get(v, Lit("url")).value.JString? && |Get(v, Lit("url")).value.s| > 0
    ensures r.Some? ==> r.value == Get(v, Lit("url")).value.s
  {
    match Get(v, Lit("url"))
    case Some(JString(s)) => if |s| > 0 then Some(s) else None
    case _ => None
  }

  /** The content type the handler accepts: one containing `text/html` or `application/xhtml`, letter case as given. */
  predicate HtmlContentType(ct: Option<JsStr>)
  {
    var c := if ct.Some? then ct.value else [];
    IndexOf(c, Lit("text/html"), 0, false).Some? || IndexOf(c, Lit("application/xhtml"), 0, false).Some?
  }

  predicate WebProtocol(p: JsStr)
  {
    p == Lit("http:") || p == Lit("https:")
  }

  /** `onRequestPost` of the fetch-url endpoint. */
  function HandleFetchUrl(body: BodyOutcome, env: Env): (r: Reply)
    ensures r.Failure? ==> r.status in {400, 422, 500, 502}
    ensures r.Extracted? ==> |r.text| >= MinTextLength
    ensures r.Extracted? ==> body.BodyParsed? && UrlField(body.v) == Some(r.sourceUrl)
  {
    match body
    case BodyThrew(m) => Failure(500, Lit("Server error: ") + OrElse(m, Lit("unknown")))
    case BodyParsed(JNull) => Failure(500, Lit("Server error: ") + OrElse(env.nullMessage, Lit("unknown")))
    case BodyParsed(v) =>
      match UrlField(v)
      case None => Failure(400, Lit("Missing url field"))
      case Some(url) =>
        match env.protocolOf(url)
        case None => Failure(400, Lit("Invalid URL"))
        case Some(protocol) =>
          if !WebProtocol(protocol) then Failure(400, Lit("Only HTTP/HTTPS URLs are supported"))
          else FromFetched(url, env.fetch(url), env.finders)
  }

  /** The part of the handler after the URL has been accepted. */
  function FromFetched(url: JsStr, fetched: Fetched, finders: Finders): (r: Reply)
    ensures r.Failure? ==> r.status in {400, 422, 502}
    ensures r.Extracted? ==> |r.text| >= MinTextLength && r.sourceUrl == url
    ensures fetched.Unreachable? ==> r.Failure? && r.status == 502
    ensures fetched.Responded? && HttpOk(fetched.status) && !HtmlContentType(fetched.contentType) ==>
      r == Failure(400, Lit("URL does not point to an HTML page"))
    ensures (fetched.Responded? && HttpOk(fetched.status) && HtmlContentType(fetched.contentType)
             && |ExtractArticleText(fetched.html, finders)| < MinTextLength) ==>
      r == Failure(422, Lit("Could not extract meaningful text from this page"))
  {
    match fetched
    case Unreachable(m) => Failure(502, Lit("Could not reach URL: ") + OrElse(m, Lit("network error")))
    case Responded(status, ct, html) =>
      if !HttpOk(status) then
        Failure(502, Lit("Failed to fetch URL (HTTP ") + DecimalString(status) + Lit(")"))
      else if !HtmlContentType(ct) then
        Failure(400, Lit("URL does not point to an HTML page"))
      else
        var text := ExtractArticleText(html, finders);
        if |text| < MinTextLength then Failure(422, Lit("Could not extract meaningful text from this page"))
        else Extracted(ExtractTitle(html, finders), text, url)
  }

  /**
   * The handler answers with a page exactly when the body holds a
   * non-empty string `url` with an http or https protocol, the page came
   * back with a 2xx status and an HTML content type, and at least 50 units
   * of text were extracted; the answer is then that page's title and text.
   */
  lemma SuccessIff(body: BodyOutcome, env: Env)
    ensures HandleFetchUrl(body, env).Extracted? <==>
      && body.BodyParsed? && UrlField(body.v).Some?
      && var url := UrlField(body.v).value;
      && env.protocolOf(url).Some? && WebProtocol(env.protocolOf(url).value)
      && env.fetch(url).Responded?
      && HttpOk(env.fetch(url).status) && HtmlContentType(env.fetch(url).contentType)
      && |ExtractArticleText(env.fetch(url).html, env.finders)| >= MinTextLength
    ensures HandleFetchUrl(body, env).Extracted? ==>
      var url := UrlField(body.v).value;
      var html := env.fetch(url).html;
      HandleFetchUrl(body, env) == Extracted(ExtractTitle(html, env.finders), ExtractArticleText(html, env.finders), url)
  {
    match body
    case BodyThrew(_) =>
    case BodyParsed(v) =>
      if v.JNull? {
        assert Get(v, Lit("url")).None?;
      } else if UrlField(v).Some? {
        var url := UrlField(v).value;
        var p := env.protocolOf(url);
        if p.Some? && WebProtocol(p.value) {
          assert HandleFetchUrl(body, env) == FromFetched(url, env.fetch(url), env.finders);
          FromFetchedIff(url, env.fetch(url), env.finders);
        }
      }
  }

  /** Past the URL checks, the handler answers with the page exactly when it is a 2xx HTML page with 50 units of text. */
  lemma FromFetchedIff(url: JsStr, fetched: Fetched, finders: Finders)
    ensures FromFetched(url, fetched, finders).Extracted? <==>
      && fetched.Responded? && HttpOk(fetched.status) && HtmlContentType(fetched.contentType)
      && |ExtractArticleText(fetched.html, finders)| >= MinTextLength
    ensures FromFetched(url, fetched, finders).Extracted? ==>
      FromFetched(url, fetched, finders) == Extracted(ExtractTitle(fetched.html, finders), ExtractArticleText(fetched.html, finders), url)
  {
  }

  /** A body that is JSON `null` cannot be destructured: the handler answers 500. */
  lemma NullBodyIsServerError(env: Env)
    ensures HandleFetchUrl(BodyParsed(JNull), env).Failure?
    ensures HandleFetchUrl(BodyParsed(JNull), env).status == 500
  {
  }

  /** A body without a non-empty string `url` is refused with 400 before anything is fetched. */
  lemma MissingUrl(v: Json, env: Env)
    requires !v.JNull? && UrlField(v).None?
    ensures HandleFetchUrl(BodyParsed(v), env) == Failure(400, Lit("Missing url field"))
  {
  }

  /**
   * A URL whose protocol is not http or https, or that does not parse, is
   * never fetched: the answer is the same whatever the network would do.
   */
  lemma OnlyWebUrlsFetched(body: BodyOutcome, env: Env, fetch: JsStr -> Fetched)
    requires body.BodyParsed? && UrlField(body.v).Some?
    requires var p := env.protocolOf(UrlField(body.v).value); p.None? || !WebProtocol(p.value)
    ensures HandleFetchUrl(body, env) == HandleFetchUrl(body, env.(fetch := fetch))
    ensures HandleFetchUrl(body, env).Failure? && HandleFetchUrl(body, env).status == 400
  {
  }

  /** A non-2xx answer from the page is reported as 502 with its status written in decimal. */
  lemma UpstreamStatusReported(url: JsStr, status: int, ct: Option<JsStr>, html: JsStr, finders: Finders)
    requires !HttpOk(status)
    ensures FromFetched(url, Responded(status, ct, html), finders)
      == Failure(502, Lit("Failed to fetch URL (HTTP ") + DecimalString(status) + Lit(")"))
  {
  }

  /** The content-type test is case-sensitive: `Text/HTML` alone is refused. */
  lemma ContentTypeCaseSensitive()
    ensures !HtmlContentType(Some(Lit("Text/HTML")))
    ensures HtmlContentType(Some(Lit("text/html; charset=utf-8")))
  {
    var upper := Lit("Text/HTML");
    assert !At(upper, 0, Lit("text/html")) by {
      assert upper[0] != Lit("text/html")[0];
    }
    assert IndexOf(upper, Lit("text/html"), 0, false).None? by {
      assert IndexOf(upper, Lit("text/html"), 1, false).None?;
    }
    assert IndexOf(upper, Lit("application/xhtml"), 0, false).None?;
    var lower := Lit("text/html; charset=utf-8");
    assert lower[..9] == Lit("text/html");
    IndexOfFirst(lower, Lit("text/html"), 0, false, 0);
  }

  /** A missing content type counts as the empty one, which is refused. */
  lemma MissingContentTypeRefused(url: JsStr, status: int, html: JsStr, finders: Finders)
    requires HttpOk(status)
    ensures FromFetched(url, Responded(status, None, html), finders) == Failure(400, Lit("URL does not point to an HTML page"))
  {
    assert !HtmlContentType(None) by {
      var empty: JsStr := [];
      assert IndexOf(empty, Lit("text/html"), 0, false).None?;
      assert IndexOf(empty, Lit("application/xhtml"), 0, false).None?;
    }
  }
}
