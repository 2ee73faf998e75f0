# lumen-reader, modelled in Dafny

lumen-reader turns an article into an argument map. A browser extension
takes the text of the current page. Two server endpoints then work on it:
`/api/fetch-url` downloads a page and extracts its article text, and
`/api/analyze` sends the text to a language model and returns the
argument graph it produced. This project models, in Dafny, the logic of
those three pieces. The network, the model and the browser are left out.

- **The analysis endpoint** (`functions/api/analyze.js`):
  - the per-address rate limiter, as a class whose `Check` method updates a map store in place (`rate_limit.dfy`);
  - the two size tiers the instructions ask for (`tiers.dfy`);
  - the prompt-injection sanitiser (`sanitize.dfy`);
  - the extraction of the JSON document from the model's reply (`response_parse.dfy`);
  - the shape validator (`validate.dfy`);
  - the handler's decision table from outcomes to status codes, in `analyze_handler.dfy`.
  - The graph rules that only the instructions state are in `graph_rules.dfy`. They are kept apart, because nothing enforces them.
- **The fetch endpoint** (`functions/api/fetch-url.js`):
  - the tag stripper, the entity decoder and the text normaliser (`text_clean.dfy`);
  - section and comment removal, the candidate cascade and the title (`article_extract.dfy`);
  - the handler's status mapping (`fetch_handler.dfy`).
- **The content script** (`lumen-extension/content.js`): newline collapsing with the length cap, and the order in which the page's text sources are tried (`page_extract.dfy`).

JavaScript strings are sequences of UTF-16 code units (`JsText`), so
lengths and the 200 and 50000 limits count the same units the source
counts. The `.replace(/…/g, …)` chains run on a small backtracking
regular-expression engine (`Regex`). That engine covers unit classes,
greedy repetition with a minimum, a greedy optional group and `\b`. It
follows JavaScript's global-replace scan. Patterns with lazy groups or
back-references are written as explicit scanners:
- the section pattern;
- the comment pattern;
- `<tag…>…</tag>`;
- `<body…>…</body>`;
- the fenced-block pattern.

Each scanner's comment gives the backtracking argument it rests on.
JSON values are a datatype (`Json`) with JavaScript property lookup and
truthiness.

## Model

| member | source | states |
|---|---|---|
| JsText.Trim | functions/api/analyze.js:22 | `trim`: the result is never longer than the input and has no white space at either end |
| JsText.TrimShape | functions/api/analyze.js:22 | `trim` keeps one contiguous part of the input, and everything it drops before and after that part is white space |
| JsText.TrimStartShape | functions/api/analyze.js:22 | dropping the leading white space keeps a suffix of the input that starts with a non-space unit, and drops only white space |
| JsText.Capped | functions/api/fetch-url.js:192-194 | a text of at most 50000 units is kept as is; a longer one becomes its first 50000 units followed by the marker, so the result is at most 50000 units plus the marker |
| JsText.IndexOfUnit | functions/api/analyze.js:421 | `indexOf('{')`: the position found holds the unit and no earlier position does; None exactly when the unit is absent |
| JsText.LastIndexOfUnit | functions/api/analyze.js:422 | `lastIndexOf('}')`: the position found holds the unit and no later position does; None exactly when the unit is absent |
| JsText.IndexOf | functions/api/fetch-url.js:48 | `includes`/`indexOf` of a substring (optionally ignoring ASCII case): the first occurrence at or after the start, and None only when there is none |
| JsText.Digits | functions/api/fetch-url.js:42 | the decimal rendering of the status is a non-empty run of digits whose value is the number |
| JsText.DecimalString | functions/api/fetch-url.js:42 | `String(n)` of an integer: digits whose value is `n`, after a `-` exactly when `n` is negative |
| TextClean.StripTags | functions/api/fetch-url.js:164-168 | `stripTags` never lengthens its input, and text with no `<` and no `&` comes back unchanged |
| TextClean.TagBecomesSpace | functions/api/fetch-url.js:164-168 | a tag `<…>` with a non-empty inside and no `>` in it, after text with no `<` and no `&`, becomes one space; the text before it is kept and the text after it is stripped in turn |
| TextClean.NbspBecomesSpace | functions/api/fetch-url.js:167 | an `&nbsp;` in any letter case, after text with no `<` and no `&`, becomes one space; the text before it is kept and the text after it is stripped in turn |
| TextClean.TagMatch | functions/api/fetch-url.js:166 | `<[^>]+>` matches at a position exactly when a `<` there is closed by the first later `>` with at least one unit between, and the match takes the whole tag |
| TextClean.DecodeEntities | functions/api/fetch-url.js:170-179 | `decodeEntities` never lengthens its input, and text with no `&` comes back unchanged |
| TextClean.AmpLtDecodesToLt | functions/api/fetch-url.js:174-175 | the replacements run in sequence, so `&amp;lt;` decodes to `<` |
| TextClean.NumericPassesNeedHash | functions/api/fetch-url.js:172-173 | the two numeric-entity passes change nothing where no `&` is followed by `#` |
| TextClean.EntityPassesNeverLonger | functions/api/fetch-url.js:172-173 | the decimal and hexadecimal entity passes never lengthen the text |
| TextClean.DecodeNamed | functions/api/fetch-url.js:174-178 | the named-entity passes never lengthen the text, and leave text with no `&` unchanged |
| TextClean.LiteralOnlyAt | functions/api/fetch-url.js:174-178 | an entity name occurring at a position, whose first unit occurs nowhere else in the text, matches there, taking itself, and nowhere else |
| TextClean.ReplaceSingleMatch | functions/api/fetch-url.js:174-178 | a replacement pass whose pattern matches at one position only replaces that stretch and leaves the text around it untouched |
| CleanText.TrimLines | functions/api/fetch-url.js:188 | after `split('\n').map(trim).join('\n')` no line begins or ends with white space, and spaces and tabs that were apart stay apart |
| CleanText.BlankRunSeparates | functions/api/fetch-url.js:184 | after `/[ \t]+/g` becomes one space, no two spaces or tabs are adjacent |
| CleanText.Normalize | functions/api/fetch-url.js:182-190 | the normalised text has no white space at either end, every line is trimmed, and no two spaces or tabs are adjacent |
| CleanText.CleanExtractedText | functions/api/fetch-url.js:181-196 | the normalised text when it has at most 50000 units, else its first 50000 units plus "\n\n[Text truncated]"; at most 50018 units, and spaces and tabs stay apart |
| CleanText.CapKeepsBlanksApart | functions/api/fetch-url.js:192-194 | cutting at 50000 units and appending the marker keeps spaces and tabs apart |
| ArticleExtract.RemoveSectionsShape | functions/api/fetch-url.js:113 | removing the eleven kinds of section never lengthens the page, and a page without `<` is unchanged |
| ArticleExtract.ScriptRemoved | functions/api/fetch-url.js:113 | a `<script…>…</script>` section, opened and closed in any letter case, with no `<` inside it and none in the text before or after it, becomes one space and that text is kept |
| ArticleExtract.RemoveCommentsShape | functions/api/fetch-url.js:116 | removing comments never lengthens the page, and a page without `<` is unchanged |
| ArticleExtract.CommentRemoved | functions/api/fetch-url.js:116 | a comment `<!--…-->` is removed whole, ending at the first `-->`, and the text on either side, when it holds no `<`, is kept |
| ArticleExtract.CommentAt | functions/api/fetch-url.js:116 | a comment match starts with `<!--` and ends right after the first `-->` that follows it; there is none when no `-->` follows |
| ArticleExtract.TagContent | functions/api/fetch-url.js:139-140 | the captured content of `<tag…>…</tag>` (any case) holds no closing tag of its own and is no longer than the page |
| ArticleExtract.TagContentIs | functions/api/fetch-url.js:139-140 | the capture is the text strictly between the first `>` after the first `<tag` (any case) and the first closing tag after that `>` |
| ArticleExtract.UnclosedOpeningNoContent | functions/api/fetch-url.js:139-141 | without a `>` after the first `<tag` there is no capture, and `extractByTag` gives null |
| ArticleExtract.NoClosingNoContent | functions/api/fetch-url.js:139-141 | without a closing tag after the `>` that ends the first `<tag…>` there is no capture |
| ArticleExtract.ExtractByTag | functions/api/fetch-url.js:138-142 | `extractByTag` is null exactly when the element is not found, and otherwise `stripTags` of the captured content, no longer than the content |
| ArticleExtract.BodyReachesLastClose | functions/api/fetch-url.js:133-134 | the body capture runs up to the last `</body>` of the page: every `</body>` after its start begins inside it or at its end |
| ArticleExtract.Cleaned | functions/api/fetch-url.js:110-116 | the page after section and comment removal is no longer than the page, and a page without `<` is unchanged |
| ArticleExtract.OrChain | functions/api/fetch-url.js:119-126 | the `\|\|` chain yields one of its operands, and a truthy one exactly when some operand is truthy |
| ArticleExtract.OrChainFirst | functions/api/fetch-url.js:119-126 | the chain yields the first truthy candidate |
| ArticleExtract.Fallback | functions/api/fetch-url.js:133-135 | the body fallback is cleaned text, at most 50018 units |
| ArticleExtract.ExtractArticleText | functions/api/fetch-url.js:108-136 | the article text is at most 50018 units and never has two spaces or tabs adjacent |
| ArticleExtract.FirstCandidateWins | functions/api/fetch-url.js:128-130 | the first truthy candidate is used when it is longer than 200 units |
| ArticleExtract.ShortFirstCandidateFallsBack | functions/api/fetch-url.js:128-135 | a first truthy candidate of at most 200 units sends the page to the body fallback, even when a later candidate is long |
| ArticleExtract.NoCandidateFallsBack | functions/api/fetch-url.js:132-135 | with no truthy candidate the body fallback is used |
| ArticleExtract.ExtractTitle | functions/api/fetch-url.js:98-106 | the title has no white space at either end; without a `<title>` it is the decoded `og:title`, and without either it is empty |
| ArticleExtract.TitleTagPreferred | functions/api/fetch-url.js:100-101 | a `<title>` element decides the title whatever `og:title` says |
| FetchHandler.UrlField | functions/api/fetch-url.js:9-13 | the `url` field is accepted exactly when it is a non-empty string |
| FetchHandler.HandleFetchUrl | functions/api/fetch-url.js:1-84 | every error status is 400, 422, 500 or 502; a success carries at least 50 units of text and the submitted url as `source_url` |
| FetchHandler.FromFetched | functions/api/fetch-url.js:29-77 | after the URL is accepted: an unreachable page is 502; a 2xx page without an HTML content type is 400 "URL does not point to an HTML page"; a 2xx HTML page with under 50 units of text is 422 "Could not extract meaningful text from this page"; a success has at least 50 units and the submitted url |
| FetchHandler.SuccessIff | functions/api/fetch-url.js:11-77 | 200 exactly when the url is a non-empty http(s) string, the page answered 2xx with an HTML content type and 50 or more units were extracted; the reply is then that page's title and text |
| FetchHandler.NullBodyIsServerError | functions/api/fetch-url.js:78-83 | a JSON `null` body cannot be destructured and is answered with 500 |
| FetchHandler.MissingUrl | functions/api/fetch-url.js:11-13 | a body without a non-empty string `url` is refused with 400 |
| FetchHandler.OnlyWebUrlsFetched | functions/api/fetch-url.js:16-25 | a URL that does not parse or is not http/https is refused with 400 and never fetched: the reply does not depend on the network |
| FetchHandler.UpstreamStatusReported | functions/api/fetch-url.js:40-45 | a non-2xx page is reported as 502 with its status in decimal |
| FetchHandler.ContentTypeCaseSensitive | functions/api/fetch-url.js:47-48 | the content-type test is case-sensitive: `Text/HTML` is refused, `text/html; charset=utf-8` accepted |
| FetchHandler.MissingContentTypeRefused | functions/api/fetch-url.js:47-53 | a missing content type counts as empty and is refused with 400 |
| PageExtract.CollapseNoTriple | lumen-extension/content.js:48 | after collapsing, no three newlines stand in a row |
| PageExtract.CollapseKeepsText | lumen-extension/content.js:48 | collapsing keeps every unit that is not a newline, in order |
| PageExtract.CollapseNeverLonger | lumen-extension/content.js:48 | collapsing never lengthens the text |
| PageExtract.CollapseUnchanged | lumen-extension/content.js:48 | text without three newlines in a row is left as it is |
| PageExtract.CollapseIdempotent | lumen-extension/content.js:48 | collapsing twice is collapsing once |
| PageExtract.NewlineRunMatch | lumen-extension/content.js:48 | `\n{3,}` matches exactly where three or more newlines follow, and takes the whole run |
| PageExtract.CollapseRun | lumen-extension/content.js:48 | a run of three or more newlines, standing whole between the text before and after it, becomes exactly two newlines, and each side is collapsed on its own |
| PageExtract.CleanText | lumen-extension/content.js:47-53 | `cleanText` output is at most 50000 units plus the marker |
| PageExtract.CleanTextShape | lumen-extension/content.js:47-53 | the collapsed text is kept whole up to 50000 units, else cut to 50000 units plus "\n\n[文本已截断]"; the kept part has no triple newline, and no non-newline unit is lost before the cut |
| PageExtract.CleanTextUnchanged | lumen-extension/content.js:47-53 | text of at most 50000 units with no run of three newlines comes back unchanged |
| PageExtract.ArticleTitle | lumen-extension/content.js:19 | `article.title \|\| document.title` |
| PageExtract.FirstWhere | lumen-extension/content.js:28-38 | the scan in order: the index found satisfies the test and no earlier one does; None exactly when no index in range does |
| PageExtract.FirstWhereIs | lumen-extension/content.js:28-38 | an index that satisfies the test, with every earlier index failing it, is the one the scan finds |
| PageExtract.FirstQualifying | lumen-extension/content.js:28-38 | a selector found is one whose trimmed text exceeds 200 units |
| PageExtract.FirstSelector | lumen-extension/content.js:28-38 | the loop over the selectors stops at the first one whose trimmed text exceeds 200 units, as `FirstWhere` specifies |
| PageExtract.ExtractFromPage | lumen-extension/content.js:11-45 | the loop returns what `FromPage` specifies: Readability first, then the selectors in order, then the body |
| PageExtract.ReadabilityPreferred | lumen-extension/content.js:17-23 | a Readability article whose trimmed text exceeds 200 units supplies the text and title |
| PageExtract.TwoHundredIsNotEnough | lumen-extension/content.js:17 | an article of exactly 200 units after trimming falls through to the selectors |
| PageExtract.SelectorOrder | lumen-extension/content.js:28-38 | the first selector whose trimmed text exceeds 200 units supplies the text, even after shorter matches of earlier selectors |
| PageExtract.BodyFallback | lumen-extension/content.js:40-44 | with nothing qualifying, the body text is used with no minimum length, so an empty text is possible |
| PageExtract.ExtractionBounded | lumen-extension/content.js:47-53 | the text sent back is at most 50000 units plus the marker, and without a cut it has no triple newline |
| RateLimit.Step | functions/api/analyze.js:358-387 | day cap checked first, then minute cap; a rejection leaves the store unchanged; an admission adds one to both counters, touches no other key and reports `5 - day - 1`, in 0..4 |
| RateLimit.RateLimiter.Check | functions/api/analyze.js:358-387 | the method's result and new store are those of `Step` |
| RateLimit.CounterTracksAdmissions | functions/api/analyze.js:365-386 | over any sequence of requests, each counter equals its start plus the admissions for it, and never passes its cap |
| RateLimit.Caps | functions/api/analyze.js:355-356 | from an empty store no address is admitted more than 5 times a day or 3 times a minute |
| RateLimit.Isolated | functions/api/analyze.js:359-363 | what the limiter answers an address, and leaves in its counters, depends only on that address's counters |
| RateLimit.KeysDistinct | functions/api/analyze.js:360-363 | day keys and minute keys never collide, and two keys of one kind coincide only for the same address and stamp |
| Tiers.TierFor | functions/api/analyze.js:111-119 | the long tier exactly when the count exceeds 5000; each tier's minimums are at most its maximums |
| Tiers.TierMonotone | functions/api/analyze.js:111-119 | a longer article never gets a smaller bound |
| Sanitize.SanitizeUnchanged | functions/api/analyze.js:404-415 | text in which none of the nine patterns occurs is returned unchanged |
| Sanitize.SingleRewrite | functions/api/analyze.js:404-415 | when the passes before one pass match nowhere, that pass matches one stretch only, and the later passes find nothing in its output, `sanitizeInput` rewrites that stretch alone |
| Sanitize.ActAsRemoved | functions/api/analyze.js:411 | `act`, white space, `as`, in any case and standing as whole words between text with no letters and no `<`, becomes `[REMOVED]` in the output of `sanitizeInput`, and the rest is kept |
| Sanitize.TagRemoved | functions/api/analyze.js:406-408 | a `<system>`, `<user>` or `<assistant>` tag, opening or closing and in any case, between text with no letters and no `<`, is deleted by `sanitizeInput`, and the rest is kept |
| Sanitize.CleanUnchanged | functions/api/analyze.js:404-415 | a chain of replacement passes none of whose patterns matches anywhere in the text returns the text unchanged |
| Sanitize.ChainRewrite | functions/api/analyze.js:404-415 | when the passes before one pass match nowhere, that pass matches one stretch only, and the passes after it match nowhere in its output, the chain rewrites that stretch alone |
| Sanitize.TagRewritten | functions/api/analyze.js:406-408 | a `<system>`, `<user>` or `<assistant>` tag at a position, opening or closing and in any case, in text with no other `<` and no letter outside the tag, is deleted by `sanitizeInput` and everything else kept in place |
| Sanitize.PhraseMatch | functions/api/analyze.js:409-413 | a phrase pattern `\bword…` matches where a word boundary is followed by its first word in any case and the rest of the pattern matches after it, ending where the rest ends |
| Sanitize.TagMatch | functions/api/analyze.js:406-408 | `<\/?name>` matches a closing tag, or else an opening one, of the name in any case, and takes the whole tag |
| Sanitize.LoneTagDeleted | functions/api/analyze.js:406-408 | a `<system>`/`<user>`/`<assistant>` tag, opening or closing, is deleted and the rest of the text kept |
| Sanitize.ActAsMatch | functions/api/analyze.js:411 | `act`, white space, `as`, as whole words in any case, is a match of the phrase pattern covering exactly that stretch |
| ResponseParse.BraceSlice | functions/api/analyze.js:421-424 | None exactly when the candidate lacks `{` or `}`; a non-empty slice starts with `{` and ends with `}` |
| ResponseParse.SliceBetweenBraces | functions/api/analyze.js:421-424 | the slice runs from the first `{` through the last `}`, and is empty when that `}` comes first |
| ResponseParse.UnfencedCandidate | functions/api/analyze.js:418-420 | a reply with no backtick is searched whole, after trimming |
| ResponseParse.FencedRoundTrip | functions/api/analyze.js:418-424 | prose, then a ```` ```json ```` block holding a document that starts with `{`, ends with `}` and has no fence, then prose: the candidate and the slice are that document exactly |
| Validate.PhaseVerdict | functions/api/analyze.js:434-436 | a phase passes exactly when it has a truthy title, a non-empty nodes array and a connectors array; only a null phase throws; a failing phase gets the message of its first failing check, title, then nodes, then connectors |
| Validate.ValidateAnalysis | functions/api/analyze.js:427-439 | returns `''` exactly when the value has the declarative shape `Shaped`; otherwise the message of the first failing check, in the order object, `core_claim`, verdict object, strongest and weakest, phases array |
| Validate.PhasesDecide | functions/api/analyze.js:433-437 | past the top-level checks, the first badly shaped phase's verdict is the validator's answer |
| Validate.CheckPhasesPass | functions/api/analyze.js:433-438 | the phase loop passes exactly when every phase is well shaped |
| Validate.CheckPhasesMessage | functions/api/analyze.js:434-436 | a failing phase is reported with a non-empty message |
| Validate.FirstFailingPhase | functions/api/analyze.js:433-437 | phases are checked in order: the first badly shaped phase decides the outcome |
| Validate.NullPhaseThrows | functions/api/analyze.js:433-434 | a null phase after well-shaped ones makes the validator throw instead of returning |
| GraphRules.ValidatorIgnoresGraphRules | functions/api/analyze.js:336-346 | the validator accepts an analysis that breaks the instructions' graph rules under every tier |
| GraphRules.WellFormedNeedsSixNodes | functions/api/analyze.js:346 | a graph obeying the rules for either tier has at least six nodes |
| Json.Get | functions/api/analyze.js:429-432 | property lookup gives the value of the last member with that name, and undefined for a missing name or a non-object |
| AnalyzeHandler.IpOf | functions/api/analyze.js:5 | the client address when the header is present and non-empty, and `unknown` otherwise, so every client without the header shares one rate-limit bucket |
| AnalyzeHandler.TextField | functions/api/analyze.js:22 | the trimmed `text` when it is a string, else the empty string |
| AnalyzeHandler.ParseContent | functions/api/analyze.js:83-88 | content parses only when it is a string whose brace slice is non-empty, and then to what the parser makes of that slice |
| AnalyzeHandler.FromUpstream | functions/api/analyze.js:61-102 | failures are 500 or 504, and 504 exactly for a timeout; a success is a document of the validator's shape parsed from `choices[0].message.content`; a non-2xx reply whose body cannot be read escapes the handler |
| AnalyzeHandler.Respond | functions/api/analyze.js:5-102 | a limiter rejection is 429 with its message; an admitted request without a key is 500 "GEMINI_API_KEY missing", and one with a key but an unparsable body is 400 "Invalid JSON body"; errors are 400, 429, 500 or 504; a success needs an admitted request and a text of 100 to 50000 units, carries the remaining quota, and holds a document the validator reports no problem with |
| AnalyzeHandler.FromParsed | functions/api/analyze.js:83-102 | a parse failure or a validator message is a 500 with a non-empty message; a success is the parsed document, of the validator's shape |
| AnalyzeHandler.ParsedOutcome | functions/api/analyze.js:90-102 | once the content has parsed, the reply is the document exactly when it has the validator's shape, and an exception escapes exactly when the validator throws |
| AnalyzeHandler.AcceptedText | functions/api/analyze.js:22-40 | an admitted request with a key and a text of acceptable length goes on to the upstream call with its sanitised text |
| AnalyzeHandler.RefusedEarly | functions/api/analyze.js:5-37 | a request that is not admitted, has no key or has no acceptable text gets an error status, or escapes the handler on a null body |
| AnalyzeHandler.FromText | functions/api/analyze.js:22-40 | a trimmed text shorter than 100 or longer than 50000 units is refused with 400; other failures are 500 or 504; a success keeps the remaining quota and holds a document the validator reports no problem with |
| AnalyzeHandler.Analyze | functions/api/analyze.js:5-9 | the store afterwards is the limiter's, whatever the rest of the request does; a success spent one unit of daily quota |
| AnalyzeHandler.HandleAnalyze | functions/api/analyze.js:1-103 | the method's reply and new store are those of `Analyze` |
| AnalyzeHandler.QuotaSpentFirst | functions/api/analyze.js:5-37 | an admitted request spends its quota even when later refused for its key, body or text; a rejected one is 429 and writes nothing |
| AnalyzeHandler.TextLengthGate | functions/api/analyze.js:22-37 | empty, too short and too long texts get their 400 messages, whatever the upstream would say |
| AnalyzeHandler.UpstreamGetsSanitisedText | functions/api/analyze.js:39-40 | for an accepted text the reply depends on the upstream only through the call with the sanitised text and its tier |
| AnalyzeHandler.CleanTextSentAsIs | functions/api/analyze.js:39 | a text no injection pattern touches is sent upstream exactly as submitted (trimmed) |
| AnalyzeHandler.UpstreamSuccessIff | functions/api/analyze.js:66-102 | the upstream part succeeds exactly when the content parses into a document of the validator's shape |
| AnalyzeHandler.SuccessIff | functions/api/analyze.js:1-102 | 200 exactly when the request is admitted, the key is set, the text is 100 to 50000 units and the upstream content parses into a well-shaped document |
| AnalyzeHandler.UpstreamUncaught | functions/api/analyze.js:66-90 | after the upstream call, an exception escapes exactly when the body of a non-2xx reply cannot be read or the validator throws |
| AnalyzeHandler.UncaughtOnlyOnNull | functions/api/analyze.js:22-90 | an exception escapes the handler only for a null body, an unreadable non-2xx upstream reply, or a null phase in the parsed answer |
| AnalyzeHandler.NonStringContentFails | functions/api/analyze.js:83-88 | truthy content that is not a string fails to parse (it has no `trim`) |
| AnalyzeHandler.ContentPath | functions/api/analyze.js:78 | the answer is read from `choices[0].message.content` |

## Left out

- I/O and the platform: `fetch`, `AbortController` and the 90-second timer, Cloudflare KV, `Date`, CORS headers and `Response` objects. Outcomes of outside calls are inputs (`Upstream`, `Fetched`, `BodyOutcome`), and replies are datatypes.
- Key expiry in the rate-limit store (TTLs of 90000 s and 120 s) and the non-atomic get/put between concurrent requests: time and concurrency.
- `Date().toISOString()` bucket formatting: days and minutes are abstract numbers. `RateLimit.KeysDistinct` shows the key strings keep them apart.
- `parseInt` of stored counters: the store holds numbers.
- `JSON.parse` and `JSON.stringify`: the parser is an input. JSON numbers are integers, since only their zero-ness and their rendering in messages matter here.
- JsText.DecimalString: renders every integer as plain digits. JavaScript's `String(n)` switches to exponent form from 10^21 in magnitude (and a parsed number that large is a rounded double already), so a `phase.id` that large would read differently in a validator message.
- `new URL(...)`: the protocol it reports is an input, with None when it throws.
- The body of `request.json()` on the analysis endpoint is taken as already parsed, with None when parsing threw.
- `extractByAttr`, `extractByClass` and the `og:title` match: these lookahead and character-class regexes are not scanned. They are inputs (`Finders`), and the cascade is proved over whatever they return.
- Mozilla Readability, `document.querySelector` and `innerText` in the content script: given as candidate texts on a `Page`. A throwing Readability is the same as a null result, and `document.body` is taken to be present.
- The natural-language text of the generator instructions: only the tier bounds the handler puts into them are modelled.
- The messaging, UI and timing code of the extension (`sidepanel.js`, `background.js`).
- Surrogate pairs: lengths count UTF-16 units as JavaScript does, and every literal here is in the Basic Multilingual Plane.
- ArticleExtract.SectionEnd: its contract states only where a match may end. What the section pass removes is stated by `ArticleExtract.ScriptRemoved`, for a `script` section surrounded by text without `<`, rather than for every page.
- ArticleExtract.TagContent: the regular expression is modelled as a scan from the first `<tag`, and `TagContentIs` states what that scan captures. That the regex's leftmost match starts there too (a later `<tag` finds a closing tag only when the first one does) is argued in the comment, not proved against a regex engine.
- TextClean.FromDecimalEntity: takes the exact value of the digits modulo 2^16. JavaScript converts the digits to a double first, so `&#9007199254740993;` (2^53 + 1) rounds to 2^53 and gives U+0000 where the model gives U+0001, and digit runs beyond about 1.8 × 10^308 become Infinity, which also gives U+0000. Doubles are not modelled.
- TextClean.FromHexEntity: the same exact-integer reading of `parseInt(n, 16)`, with the same difference from 2^53 on.
- ResponseParse.FencedRoundTrip: stated for replies whose leading prose has no backtick. Fenced interiors in other replies are covered only by the scanner's definition.
- Sanitize.SanitizeUnchanged: what `sanitizeInput` makes of a match is proved for the `act as` phrase (`Sanitize.ActAsRemoved`) and the three tags (`Sanitize.TagRemoved`), each between text with no letters and no `<`. The other five phrase patterns (`ignore previous instructions`, `you are now`, `forget your instructions`, `system:`, `prompt:`) are defined and shown not to match where they are absent, but their rewriting is not proved phrase by phrase, and neither is text in which several patterns occur.
- GraphRules: the rules are stated only as the instructions ask for them. The server never checks them, and the model does not claim it does.
