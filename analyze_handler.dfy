/**
 * The `POST /api/analyze` endpoint: rate-limit the caller, check the
 * server's key and the submitted text, send the sanitised text upstream
 * with the size tier its length selects, dig the model's answer out of the
 * upstream reply, parse and validate it, and return it.
 *
 * The request's body (already parsed), the upstream call and `JSON.parse`
 * of the extracted slice are inputs; the limiter's store is the state the
 * endpoint changes.
 */
module AnalyzeHandler {
  import opened Wrappers
  import opened JsText
  import opened Json
  import opened RateLimit
  import opened Sanitize
  import opened Tiers
  import opened ResponseParse
  import opened Validate

  /**
   * How the upstream call ended: aborted by the 90-second timer, failed in
   * transport, answered with a non-2xx status (and this body text),
   * answered with a non-2xx status whose body could not be read (the
   * `text()` call threw, outside any `try`), answered with a body that is
   * not JSON, or answered with this JSON.
   */
  datatype Upstream = Aborted | TransportFailed | NotOk(body: JsStr) | NotOkUnreadable | BadJson | Data(d: Json)

  /**
   * The calls into code the model does not see: the upstream request, given
   * the text embedded in the instructions and the tier they ask for, and
   * `JSON.parse` of a slice (None when it throws).
   */
  datatype Oracles = Oracles(upstream: (JsStr, Tier) -> Upstream, parse: JsStr -> Option<Json>)

  /**
   * The response: an error status with its message, the validated analysis
   * with the remaining daily quota, or an exception that escapes the
   * handler (the platform then answers on its behalf).
   */
  datatype Reply =
    | Failure(status: nat, error: JsStr)
    | Analysis(doc: Json, remaining: nat)
    | Uncaught

  const MinArticleLength := 100
  const MaxArticleLength := 50000

  /** "The article is too short, paste an article of at least 100 characters." */
  const TooShort: JsStr := Lit("文章内容过短，请粘贴至少 100 字的文章。")
  /** "The article exceeds the 50000-character limit, shorten it and retry." */
  const TooLong: JsStr := Lit("文章内容超过 50000 字限制，请缩减后重试。")

  /** `request.headers.get('CF-Connecting-IP') || 'unknown'` */
  function IpOf(header: Option<JsStr>): (ip: JsStr)
    ensures |ip| > 0
    ensures header.Some? && |header.value| > 0 ==> ip == header.value
    ensures !(header.Some? && |header.value| > 0) ==> ip == Lit("unknown")
  {
    if header.Some? && |header.value| > 0 then header.value else Lit("unknown")
  }

  /** `typeof payload.text === 'string' ? payload.text.trim() : ''` for a non-null payload. */
  function TextField(v: Json): (t: JsStr)
    ensures NoLeadingSpace(t) && NoTrailingSpace(t)
    ensures (Get(v, Lit("text")).Some? && Get(v, Lit("text")).value.JString?) ==> t == Trim(Get(v, Lit("text")).value.s)
    ensures !(Get(v, Lit("text")).Some? && Get(v, Lit("text")).value.JString?) ==> t == []
  {
    match Get(v, Lit("text"))
    case Some(JString(s)) => Trim(s)
    case _ => []
  }

  /** `o?.[key]` for a property name. */
  function Member(o: Option<Json>, key: JsStr): (r: Option<Json>)
    ensures r.Some? ==> o.Some? && o.value.JObject?
  {
    if o.Some? then Get(o.value, key) else None
  }

  /** `o?.[0]`: an array's first element, an object's member "0", a string's first unit. */
  function Index0(o: Option<Json>): (r: Option<Json>)
    ensures o.Some? && o.value.JArray? && |o.value.elems| > 0 ==> r == Some(o.value.elems[0])
    ensures o.None? || o.value.JNull? || o.value.JBool? || o.value.JNumber? ==> r.None?
  {
    match o
    case Some(JArray(es)) => if |es| > 0 then Some(es[0]) else None
    case Some(JObject(_)) => Get(o.value, Lit("0"))
    case Some(JString(s)) => if |s| > 0 then Some(JString([s[0]])) else None
    case _ => None
  }

  /** `upstreamData?.choices?.[0]?.message?.content` */
  function ContentOf(d: Json): Option<Json>
  {
    Member(Member(Index0(Member(Some(d), Lit("choices"))), Lit("message")), Lit("content"))
  }

  /**
   * `safeJsonParse(contentText)`, None where it throws: a value that is not
   * a string has no `trim`; a reply without both braces throws before
   * parsing; the empty slice, like any slice the parser refuses, fails to
   * parse.
   */
  function ParseContent(c: Json, parse: JsStr -> Option<Json>): (r: Option<Json>)
    ensures r.Some? ==> c.JString? && JsonSlice(c.s).Some? && JsonSlice(c.s).value != [] && r == parse(JsonSlice(c.s).value)
    ensures c.JString? && JsonSlice(c.s).Some? && JsonSlice(c.s).value != [] ==> r == parse(JsonSlice(c.s).value)
  {
    match c
    case JString(raw) =>
      (match JsonSlice(raw)
       case Some(slice) => if slice == [] then None else parse(slice)
       case None => None)
    case _ => None
  }

  /**
   * Everything after the upstream call. Only a timeout gives 504; a
   * success carries a document that has the validator's shape.
   */
  function FromUpstream(u: Upstream, parse: JsStr -> Option<Json>, remaining: nat): (r: Reply)
    ensures r.Failure? ==> r.status in {500, 504} && |r.error| > 0
    ensures r.Failure? && r.status == 504 <==> u.Aborted?
    ensures r.Analysis? ==> Shaped(r.doc) && r.remaining == remaining
    ensures r.Analysis? ==> u.Data? && ContentOf(u.d).Some? && ParseContent(ContentOf(u.d).value, parse) == Some(r.doc)
    ensures u.NotOkUnreadable? ==> r.Uncaught?
  {
    match u
    case Aborted => Failure(504, Lit("Upstream timeout"))
    case TransportFailed => Failure(500, Lit("Upstream request failed"))
    case NotOk(t) => Failure(500, Lit("Upstream error: ") + t)
    case NotOkUnreadable => Uncaught
    case BadJson => Failure(500, Lit("Upstream JSON parse failed"))
    case Data(d) =>
      if !Truthy(ContentOf(d)) then Failure(500, Lit("Upstream content missing"))
      else FromParsed(ParseContent(ContentOf(d).value, parse), remaining)
  }

  /** The parsed answer (None when parsing failed), then the validator's verdict on it. */
  function FromParsed(parsed: Option<Json>, remaining: nat): (r: Reply)
    ensures r.Failure? ==> r.status == 500 && |r.error| > 0
    ensures r.Analysis? ==> parsed == Some(r.doc) && Shaped(r.doc) && r.remaining == remaining
  {
    match parsed
    case None => Failure(500, Lit("AI JSON parse failed"))
    case Some(doc) =>
      match ValidateAnalysis(doc)
      case Threw => Uncaught
      case Returned(m) => if |m| > 0 then Failure(500, m) else Analysis(doc, remaining)
  }

  /**
   * The handler once the limiter has answered: `body` is None when
   * `request.json()` threw.
   */
  function Respond(limit: LimitResult, apiKey: Option<JsStr>, body: Option<Json>, o: Oracles): (r: Reply)
    ensures limit.Rejected? ==> r == Failure(429, limit.message)
    ensures limit.Allowed? && (apiKey.None? || |apiKey.value| == 0) ==> r == Failure(500, Lit("GEMINI_API_KEY missing"))
    ensures limit.Allowed? && apiKey.Some? && |apiKey.value| > 0 && body.None? ==> r == Failure(400, Lit("Invalid JSON body"))
    ensures r.Failure? ==> r.status in {400, 429, 500, 504}
    ensures r.Analysis? ==> limit.Allowed? && r.remaining == limit.remaining && ValidateAnalysis(r.doc) == Returned([])
    ensures r.Analysis? ==> body.Some? && MinArticleLength <= |TextField(body.value)| <= MaxArticleLength
  {
    match limit
    case Rejected(m) => Failure(429, m)
    case Allowed(remaining) =>
      if apiKey.None? || |apiKey.value| == 0 then Failure(500, Lit("GEMINI_API_KEY missing"))
      else if body.None? then Failure(400, Lit("Invalid JSON body"))
      else if body.value.JNull? then Uncaught
      else FromText(TextField(body.value), remaining, o)
  }

  /** The checks on the trimmed text, then the upstream call with its sanitised form. */
  function FromText(text: JsStr, remaining: nat, o: Oracles): (r: Reply)
    ensures r.Failure? ==> r.status in {400, 500, 504}
    ensures r.Analysis? ==> MinArticleLength <= |text| <= MaxArticleLength && r.remaining == remaining
    ensures r.Analysis? ==> ValidateAnalysis(r.doc) == Returned([])
    ensures |text| < MinArticleLength || |text| > MaxArticleLength ==> r.Failure? && r.status == 400
  {
    if |text| == 0 then Failure(400, Lit("text is required"))
    else if |text| < MinArticleLength then Failure(400, TooShort)
    else if |text| > MaxArticleLength then Failure(400, TooLong)
    else FromUpstream(SentUpstream(text, o), o.parse, remaining)
  }

  /** The upstream call for an accepted text: its sanitised form, with the tier that form's length selects. */
  function SentUpstream(text: JsStr, o: Oracles): Upstream
  {
    o.upstream(SanitizeInput(text), TierFor(|SanitizeInput(text)|))
  }

  /** The whole request: the limiter's step, then the response; the store afterwards is the limiter's. */
  function Analyze(store: Store, ip: JsStr, day: nat, minute: nat, apiKey: Option<JsStr>, body: Option<Json>, o: Oracles)
    : (res: (Reply, Store))
    ensures res.1 == Step(store, ip, day, minute).1
    ensures res.0.Analysis? ==> Count(res.1, (ip, Day(day))) == Count(store, (ip, Day(day))) + 1
  {
    var (limit, after) := Step(store, ip, day, minute);
    (Respond(limit, apiKey, body, o), after)
  }

  /** `onRequestPost` of the analysis endpoint, against the limiter's store. */
  method HandleAnalyze(limiter: RateLimiter, header: Option<JsStr>, day: nat, minute: nat,
                       apiKey: Option<JsStr>, body: Option<Json>, o: Oracles) returns (r: Reply)
    modifies limiter
    ensures (r, limiter.store) == Analyze(old(limiter.store), IpOf(header), day, minute, apiKey, body, o)
  {
    var ip := IpOf(header);
    var limit := limiter.Check(ip, day, minute);
    r := Respond(limit, apiKey, body, o);
  }

  /* ---------- properties ---------- */

  /**
   * The limiter runs before anything else is looked at: an admitted request
   * spends a unit of quota even when it is then refused for its key, its
   * body or its text, and a rejected one leaves the store alone.
   */
  lemma QuotaSpentFirst(store: Store, ip: JsStr, day: nat, minute: nat, apiKey: Option<JsStr>, body: Option<Json>, o: Oracles)
    ensures var (r, after) := Analyze(store, ip, day, minute, apiKey, body, o);
      && (Step(store, ip, day, minute).0.Rejected? ==> after == store && r.Failure? && r.status == 429)
      && (Step(store, ip, day, minute).0.Allowed? ==>
            Count(after, (ip, Day(day))) == Count(store, (ip, Day(day))) + 1
            && Count(after, (ip, Minute(minute))) == Count(store, (ip, Minute(minute))) + 1)
  {
  }

  /** Text outside 100 to 50000 units after trimming is refused with 400, whatever the upstream would say. */
  lemma TextLengthGate(remaining: nat, apiKey: JsStr, v: Json, o: Oracles)
    requires |apiKey| > 0 && !v.JNull?
    requires |TextField(v)| < MinArticleLength || |TextField(v)| > MaxArticleLength
    ensures var r := Respond(Allowed(remaining), Some(apiKey), Some(v), o);
      r.Failure? && r.status == 400
      && r.error == (if |TextField(v)| == 0 then Lit("text is required") else if |TextField(v)| < MinArticleLength then TooShort else TooLong)
  {
  }

  /**
   * An admitted request with a key and a text of acceptable length sends the
   * sanitised text upstream, with the tier the sanitised length selects, and
   * the answer then depends on the upstream only through that call.
   */
  lemma UpstreamGetsSanitisedText(remaining: nat, apiKey: JsStr, v: Json, o: Oracles)
    requires |apiKey| > 0 && !v.JNull?
    requires MinArticleLength <= |TextField(v)| <= MaxArticleLength
    ensures Respond(Allowed(remaining), Some(apiKey), Some(v), o)
      == FromUpstream(o.upstream(SanitizeInput(TextField(v)), TierFor(|SanitizeInput(TextField(v))|)), o.parse, remaining)
  {
    AcceptedText(remaining, apiKey, v, o);
  }

  /** An admitted request with a key and a text of acceptable length goes on to the upstream call. */
  lemma AcceptedText(remaining: nat, apiKey: JsStr, v: Json, o: Oracles)
    requires |apiKey| > 0 && !v.JNull?
    requires MinArticleLength <= |TextField(v)| <= MaxArticleLength
    ensures Respond(Allowed(remaining), Some(apiKey), Some(v), o) == FromUpstream(SentUpstream(TextField(v), o), o.parse, remaining)
  {
    assert Respond(Allowed(remaining), Some(apiKey), Some(v), o) == FromText(TextField(v), remaining, o);
  }

  /** A text none of the injection patterns touches goes upstream as submitted (trimmed). */
  lemma CleanTextSentAsIs(remaining: nat, apiKey: JsStr, v: Json, o: Oracles)
    requires |apiKey| > 0 && !v.JNull?
    requires MinArticleLength <= |TextField(v)| <= MaxArticleLength
    requires Clean(TextField(v), 0)
    ensures Respond(Allowed(remaining), Some(apiKey), Some(v), o)
      == FromUpstream(o.upstream(TextField(v), TierFor(|TextField(v)|)), o.parse, remaining)
  {
    SanitizeUnchanged(TextField(v));
    AcceptedText(remaining, apiKey, v, o);
  }

  /** The upstream part succeeds exactly when the content parses into a document of the validator's shape. */
  lemma UpstreamSuccessIff(u: Upstream, parse: JsStr -> Option<Json>, remaining: nat)
    ensures FromUpstream(u, parse, remaining).Analysis? <==> UpstreamSucceeds(u, parse)
  {
    if u.Data? && Truthy(ContentOf(u.d)) {
      var parsed := ParseContent(ContentOf(u.d).value, parse);
      assert FromUpstream(u, parse, remaining) == FromParsed(parsed, remaining);
      if parsed.Some? {
        ParsedOutcome(parsed.value, remaining);
      }
    }
  }

  /** The upstream answered with content that parses into a document of the validator's shape. */
  predicate UpstreamSucceeds(u: Upstream, parse: JsStr -> Option<Json>)
  {
    && u.Data? && Truthy(ContentOf(u.d))
    && ParseContent(ContentOf(u.d).value, parse).Some?
    && Shaped(ParseContent(ContentOf(u.d).value, parse).value)
  }

  /** Once the content has parsed, the validator's verdict alone decides the reply. */
  lemma ParsedOutcome(doc: Json, remaining: nat)
    ensures FromParsed(Some(doc), remaining) == Analysis(doc, remaining) <==> Shaped(doc)
    ensures FromParsed(Some(doc), remaining).Uncaught? <==> ValidateAnalysis(doc) == Threw
  {
  }

  /**
   * A successful answer is exactly an admitted request with a key, a text of
   * acceptable length, an upstream JSON reply whose content slices and
   * parses, and a parsed document of the validator's shape.
   */
  lemma SuccessIff(limit: LimitResult, apiKey: Option<JsStr>, body: Option<Json>, o: Oracles)
    ensures Respond(limit, apiKey, body, o).Analysis? <==>
      Accepted(limit, apiKey, body) && UpstreamSucceeds(SentUpstream(TextField(body.value), o), o.parse)
  {
    if Accepted(limit, apiKey, body) {
      var u := SentUpstream(TextField(body.value), o);
      AcceptedText(limit.remaining, apiKey.value, body.value, o);
      UpstreamSuccessIff(u, o.parse, limit.remaining);
    } else {
      RefusedEarly(limit, apiKey, body, o);
    }
  }

  /** The limiter admitted the request, the key is set, and the body carries a text of acceptable length. */
  predicate Accepted(limit: LimitResult, apiKey: Option<JsStr>, body: Option<Json>)
  {
    && limit.Allowed? && apiKey.Some? && |apiKey.value| > 0
    && body.Some? && !body.value.JNull?
    && MinArticleLength <= |TextField(body.value)| <= MaxArticleLength
  }

  /** A request that is not accepted gets an error status, or escapes the handler on a null body. */
  lemma RefusedEarly(limit: LimitResult, apiKey: Option<JsStr>, body: Option<Json>, o: Oracles)
    requires !Accepted(limit, apiKey, body)
    ensures Respond(limit, apiKey, body, o).Failure? || (Respond(limit, apiKey, body, o).Uncaught? && body == Some(JNull))
  {
  }

  /** The upstream answered with content that parses into a document on which the validator throws. */
  predicate ValidatorThrows(u: Upstream, parse: JsStr -> Option<Json>)
  {
    && u.Data? && Truthy(ContentOf(u.d))
    && ParseContent(ContentOf(u.d).value, parse).Some?
    && ValidateAnalysis(ParseContent(ContentOf(u.d).value, parse).value) == Threw
  }

  /** The upstream part throws on an unreadable error reply, or from the validator on a null phase, and nowhere else. */
  predicate UpstreamThrows(u: Upstream, parse: JsStr -> Option<Json>)
  {
    u.NotOkUnreadable? || ValidatorThrows(u, parse)
  }

  /**
   * Nothing the upstream part does throws, except reading the body of a
   * non-2xx reply and the validator on a null phase.
   */
  lemma UpstreamUncaught(u: Upstream, parse: JsStr -> Option<Json>, remaining: nat)
    ensures FromUpstream(u, parse, remaining).Uncaught? <==> UpstreamThrows(u, parse)
  {
    if u.Data? && Truthy(ContentOf(u.d)) {
      var parsed := ParseContent(ContentOf(u.d).value, parse);
      assert FromUpstream(u, parse, remaining) == FromParsed(parsed, remaining);
      if parsed.Some? {
        ParsedOutcome(parsed.value, remaining);
      }
    }
  }

  /**
   * An exception escapes the handler only for a null body, for a non-2xx
   * upstream reply whose body cannot be read, or when the validator throws
   * on a null phase of the parsed answer.
   */
  lemma UncaughtOnlyOnNull(limit: LimitResult, apiKey: Option<JsStr>, body: Option<Json>, o: Oracles)
    ensures Respond(limit, apiKey, body, o).Uncaught? ==>
      body == Some(JNull) || (body.Some? && UpstreamThrows(SentUpstream(TextField(body.value), o), o.parse))
  {
    if Accepted(limit, apiKey, body) {
      var u := SentUpstream(TextField(body.value), o);
      AcceptedText(limit.remaining, apiKey.value, body.value, o);
      UpstreamUncaught(u, o.parse, limit.remaining);
    } else {
      RefusedEarly(limit, apiKey, body, o);
    }
  }

  /** An upstream reply whose content is not a string is reported as a parse failure. */
  lemma NonStringContentFails(d: Json, parse: JsStr -> Option<Json>, remaining: nat)
    requires Truthy(ContentOf(d)) && !ContentOf(d).value.JString?
    ensures FromUpstream(Data(d), parse, remaining) == Failure(500, Lit("AI JSON parse failed"))
  {
  }

  /** The model's answer is read from `choices[0].message.content`. */
  lemma ContentPath(content: Json)
    ensures var message := JObject([(Lit("content"), content)]);
      ContentOf(JObject([(Lit("choices"), JArray([JObject([(Lit("message"), message)])]))])) == Some(content)
  {
    var message := JObject([(Lit("content"), content)]);
    var choice := JObject([(Lit("message"), message)]);
    var d := JObject([(Lit("choices"), JArray([choice]))]);
    assert Get(d, Lit("choices")) == Some(JArray([choice])) by {
      assert KeyIndex(d.members, Lit("choices")) == Some(0);
    }
    assert Get(choice, Lit("message")) == Some(message) by {
      assert KeyIndex(choice.members, Lit("message")) == Some(0);
    }
    assert Get(message, Lit("content")) == Some(content) by {
      assert KeyIndex(message.members, Lit("content")) == Some(0);
    }
  }
}
