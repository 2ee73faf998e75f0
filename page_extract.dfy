/**
 * The browser extension's content script: the text it sends back when the
 * popup asks for the current page. Mozilla Readability's article is used
 * when its text is long enough, then the first of six CSS selectors whose
 * element text is long enough, then the whole body; whichever text wins is
 * trimmed, runs of three or more newlines are collapsed to a blank line and
 * the result is capped at 50000 units.
 */
module PageExtract {
  import opened Wrappers
  import opened JsText
  import opened Regex

  /** `/\n{3,}/g` */
  const NewlineRun: Pattern := [Atom(Greedy(Is(NL), 3))]

  /** What every run of three or more newlines becomes. */
  const BlankLine: JsStr := [NL, NL]

  /** Appended after the first 50000 units of an over-long text ("\n\n[text truncated]"). */
  const CutMarker: JsStr := Lit("\n\n[文本已截断]")

  /** No three newlines in a row. */
  predicate NoTripleNewline(s: JsStr)
  {
    forall k :: 0 <= k && k + 2 < |s| ==> !(s[k] == NL && s[k + 1] == NL && s[k + 2] == NL)
  }

  /** `text.replace(/\n{3,}/g, '\n\n')` */
  function CollapseNewlines(t: JsStr): JsStr
  {
    Replace(NewlineRun, Const(BlankLine), t)
  }

  /** `cleanText`: collapse blank-line runs, then cap the length. */
  function CleanText(t: JsStr): (r: JsStr)
    ensures |r| <= MaxTextLength + |CutMarker|
  {
    Capped(CollapseNewlines(t), CutMarker)
  }

  /** The text with its newlines left out: what collapsing must not disturb. */
  function DropNewlines(s: JsStr): (r: JsStr)
    ensures NL !in r
  {
    if |s| == 0 then [] else (if s[0] == NL then [] else [s[0]]) + DropNewlines(s[1..])
  }

  lemma {:induction false} DropAppend(a: JsStr, b: JsStr)
    ensures DropNewlines(a + b) == DropNewlines(a) + DropNewlines(b)
  {
    if |a| == 0 {
      assert a + b == b;
    } else {
      var h := if a[0] == NL then [] else [a[0]];
      assert (a + b)[0] == a[0];
      calc {
        DropNewlines(a + b);
        h + DropNewlines((a + b)[1..]);
        { assert (a + b)[1..] == a[1..] + b; DropAppend(a[1..], b); }
        h + (DropNewlines(a[1..]) + DropNewlines(b));
        (h + DropNewlines(a[1..])) + DropNewlines(b);
      }
    }
  }

  lemma {:induction false} DropAllNewlines(s: JsStr)
    requires forall k :: 0 <= k < |s| ==> s[k] == NL
    ensures DropNewlines(s) == []
  {
    if |s| > 0 {
      DropAllNewlines(s[1..]);
    }
  }

  lemma RunSliceDropped(s: JsStr, i: nat, n: nat)
    requires i + n <= |s| && forall k :: i <= k < i + n ==> s[k] == NL
    ensures DropNewlines(s[i..]) == DropNewlines(s[i + n..])
  {
    assert s[i..] == s[i..i + n] + s[i + n..];
    DropAppend(s[i..i + n], s[i + n..]);
    DropAllNewlines(s[i..i + n]);
  }

  /** The pattern matches at `i` exactly when three or more newlines follow, and takes the whole run. */
  lemma NewlineRunMatch(s: JsStr, i: nat)
    requires i <= |s|
    ensures Match(NewlineRun, s, i) == if Run(Is(NL), s, i) >= 3 then Some(i + Run(Is(NL), s, i)) else None
  {
    var n := Run(Is(NL), s, i);
    assert NewlineRun[0] == Atom(Greedy(Is(NL), 3)) && NewlineRun[1..] == [];
    assert Match(NewlineRun, s, i) == Back([], s, i, n, 3);
    if n >= 3 {
      assert Match([], s, i + n) == Some(i + n);
    }
  }

  /** Putting a unit in front keeps the text free of triple newlines unless it makes a third. */
  lemma NoTriplePrepend(x: Unit, r: JsStr)
    requires NoTripleNewline(r)
    requires x == NL ==> |r| < 2 || r[0] != NL || r[1] != NL
    ensures NoTripleNewline([x] + r)
  {
    var s := [x] + r;
    forall k | 0 <= k && k + 2 < |s|
      ensures !(s[k] == NL && s[k + 1] == NL && s[k + 2] == NL)
    {
      if k > 0 {
        assert s[k] == r[k - 1] && s[k + 1] == r[k] && s[k + 2] == r[k + 1];
      }
    }
  }

  /**
   * The replacement from `i` on has no triple newline, and it opens with no
   * more newlines than the text does at `i`, up to two.
   */
  lemma {:induction false} CollapseFromShape(s: JsStr, i: nat)
    requires i <= |s|
    ensures var r := ReplaceFrom(NewlineRun, Const(BlankLine), s, i);
      && NoTripleNewline(r)
      && (Run(Is(NL), s, i) == 0 ==> |r| == 0 || r[0] != NL)
      && (Run(Is(NL), s, i) <= 1 ==> |r| < 2 || r[0] != NL || r[1] != NL)
    decreases |s| - i
  {
    var n := Run(Is(NL), s, i);
    NewlineRunMatch(s, i);
    if n >= 3 {
      var rest := ReplaceFrom(NewlineRun, Const(BlankLine), s, i + n);
      CollapseFromShape(s, i + n);
      assert Run(Is(NL), s, i + n) == 0;
      assert ReplaceFrom(NewlineRun, Const(BlankLine), s, i) == [NL] + ([NL] + rest);
      NoTriplePrepend(NL, rest);
      NoTriplePrepend(NL, [NL] + rest);
    } else if i < |s| {
      var rest := ReplaceFrom(NewlineRun, Const(BlankLine), s, i + 1);
      CollapseFromShape(s, i + 1);
      assert s[i] == NL ==> n == 1 + Run(Is(NL), s, i + 1);
      assert ReplaceFrom(NewlineRun, Const(BlankLine), s, i) == [s[i]] + rest;
      NoTriplePrepend(s[i], rest);
    }
  }

  /** Collapsing keeps every unit that is not a newline, in order. */
  lemma {:induction false} CollapseFromKeepsText(s: JsStr, i: nat)
    requires i <= |s|
    ensures DropNewlines(ReplaceFrom(NewlineRun, Const(BlankLine), s, i)) == DropNewlines(s[i..])
    decreases |s| - i
  {
    var n := Run(Is(NL), s, i);
    NewlineRunMatch(s, i);
    if n >= 3 {
      CollapseFromKeepsText(s, i + n);
      KeepsTextAtRun(s, i, n);
    } else if i < |s| {
      CollapseFromKeepsText(s, i + 1);
      KeepsTextAtUnit(s, i);
    }
  }

  /** One step of `CollapseFromKeepsText` where a run is replaced. */
  lemma KeepsTextAtRun(s: JsStr, i: nat, n: nat)
    requires i + n <= |s| && n >= 3 && n == Run(Is(NL), s, i)
    requires Match(NewlineRun, s, i) == Some(i + n)
    requires DropNewlines(ReplaceFrom(NewlineRun, Const(BlankLine), s, i + n)) == DropNewlines(s[i + n..])
    ensures DropNewlines(ReplaceFrom(NewlineRun, Const(BlankLine), s, i)) == DropNewlines(s[i..])
  {
    var rest := ReplaceFrom(NewlineRun, Const(BlankLine), s, i + n);
    MatchStep(NewlineRun, Const(BlankLine), s, i, i + n);
    assert Const(BlankLine)(s[i..i + n]) == BlankLine;
    DropAppend(BlankLine, rest);
    DropAllNewlines(BlankLine);
    RunSliceDropped(s, i, n);
  }

  /** One step of `CollapseFromKeepsText` where a unit is kept. */
  lemma KeepsTextAtUnit(s: JsStr, i: nat)
    requires i < |s|
    requires Match(NewlineRun, s, i).None?
    requires DropNewlines(ReplaceFrom(NewlineRun, Const(BlankLine), s, i + 1)) == DropNewlines(s[i + 1..])
    ensures DropNewlines(ReplaceFrom(NewlineRun, Const(BlankLine), s, i)) == DropNewlines(s[i..])
  {
    var rest := ReplaceFrom(NewlineRun, Const(BlankLine), s, i + 1);
    UnitStep(NewlineRun, Const(BlankLine), s, i);
    assert [] + [s[i]] == [s[i]];
    DropAppend([s[i]], rest);
    assert s[i..] == [s[i]] + s[i + 1..];
    DropAppend([s[i]], s[i + 1..]);
  }

  /** After collapsing there are no three newlines in a row. */
  lemma CollapseNoTriple(t: JsStr)
    ensures NoTripleNewline(CollapseNewlines(t))
  {
    CollapseFromShape(t, 0);
  }

  /** Collapsing only touches newlines: the other units survive in order. */
  lemma CollapseKeepsText(t: JsStr)
    ensures DropNewlines(CollapseNewlines(t)) == DropNewlines(t)
  {
    CollapseFromKeepsText(t, 0);
    assert t[0..] == t;
  }

  /** Collapsing never lengthens the text. */
  lemma CollapseNeverLonger(t: JsStr)
    ensures |CollapseNewlines(t)| <= |t|
  {
    ReplaceNeverLonger(NewlineRun, Const(BlankLine), t, 0);
  }

  /** A text without triple newlines has no run the pattern could match. */
  lemma RunBelowThree(t: JsStr, k: nat)
    requires NoTripleNewline(t) && k <= |t|
    ensures Run(Is(NL), t, k) < 3
  {
    if k + 1 < |t| && t[k] == NL && t[k + 1] == NL {
      if k + 2 < |t| {
        assert t[k + 2] != NL;
      }
      assert Run(Is(NL), t, k + 2) == 0;
    }
  }

  /** A text without triple newlines is left as it is; so collapsing twice is collapsing once. */
  lemma CollapseUnchanged(t: JsStr)
    requires NoTripleNewline(t)
    ensures CollapseNewlines(t) == t
  {
    forall k | 0 <= k <= |t|
      ensures Match(NewlineRun, t, k).None?
    {
      RunBelowThree(t, k);
      NewlineRunMatch(t, k);
    }
    ReplaceNoMatch(NewlineRun, Const(BlankLine), t, 0);
    assert t[0..] == t;
  }

  /** `n` newlines. */
  function Newlines(n: nat): (r: JsStr)
    ensures |r| == n && forall k :: 0 <= k < n ==> r[k] == NL
  {
    seq(n, _ => NL)
  }

  /**
   * Every run of three or more newlines becomes exactly one blank line: a
   * run between text that does not end in a newline and text that does not
   * start with one is replaced by two newlines, and the text on either side
   * is collapsed as if it stood alone.
   */
  lemma CollapseRun(a: JsStr, n: nat, b: JsStr)
    requires n >= 3
    requires |a| == 0 || a[|a| - 1] != NL
    requires |b| == 0 || b[0] != NL
    ensures CollapseNewlines(a + Newlines(n) + b) == CollapseNewlines(a) + BlankLine + CollapseNewlines(b)
  {
    var x := a + Newlines(n);
    var s := x + b;
    var f := Const(BlankLine);
    assert s == a + (Newlines(n) + b);
    CollapsePrefixPart(a, Newlines(n) + b);
    RunMatched(a, n, b);
    assert ReplaceFrom(NewlineRun, f, s, |a|) == f(s[|a|..|x|]) + ReplaceFrom(NewlineRun, f, s, |x|);
    CollapseSuffixPart(x, b);
  }

  /** The pattern takes the whole run between `a` and `b`. */
  lemma RunMatched(a: JsStr, n: nat, b: JsStr)
    requires n >= 3
    requires |b| == 0 || b[0] != NL
    ensures Match(NewlineRun, a + Newlines(n) + b, |a|) == Some(|a| + n)
  {
    var s := a + Newlines(n) + b;
    forall k | |a| <= k < |a| + n
      ensures s[k] == NL
    {
      assert s[k] == Newlines(n)[k - |a|];
    }
    if |a| + n < |s| {
      assert s[|a| + n] == b[0];
    }
    WholeRunMatched(s, |a|, n);
  }

  /** A run of three or more newlines that nothing extends is matched whole. */
  lemma WholeRunMatched(s: JsStr, i: nat, n: nat)
    requires n >= 3 && i + n <= |s|
    requires forall k :: i <= k < i + n ==> s[k] == NL
    requires i + n == |s| || s[i + n] != NL
    ensures Match(NewlineRun, s, i) == Some(i + n)
  {
    RunIs(Is(NL), s, i, n);
    NewlineRunMatch(s, i);
  }

  /** Collapsing over the first part of a text that ends in something other than a newline is collapsing that part alone. */
  lemma CollapsePrefixPart(a: JsStr, c: JsStr)
    requires |a| == 0 || a[|a| - 1] != NL
    ensures ReplaceFrom(NewlineRun, Const(BlankLine), a + c, 0)
      == CollapseNewlines(a) + ReplaceFrom(NewlineRun, Const(BlankLine), a + c, |a|)
  {
    forall k | 0 <= k < |a|
      ensures Match(NewlineRun, a + c, k) == Match(NewlineRun, a, k)
    {
      RunPrefix(Is(NL), a, c, k);
      NewlineRunMatch(a + c, k);
      NewlineRunMatch(a, k);
    }
    NewlineRunMatch(a, |a|);
    ReplacePrefix(NewlineRun, Const(BlankLine), a, c, 0);
  }

  /** Collapsing over the second part of a text is collapsing that part alone. */
  lemma CollapseSuffixPart(x: JsStr, b: JsStr)
    ensures ReplaceFrom(NewlineRun, Const(BlankLine), x + b, |x|) == CollapseNewlines(b)
  {
    forall k | 0 <= k <= |b|
      ensures Match(NewlineRun, x + b, |x| + k) == Shifted(Match(NewlineRun, b, k), |x|)
    {
      RunSuffix(Is(NL), x, b, k);
      NewlineRunMatch(x + b, |x| + k);
      NewlineRunMatch(b, k);
    }
    ReplaceSuffix(NewlineRun, Const(BlankLine), x, b, 0);
  }

  lemma CollapseIdempotent(t: JsStr)
    ensures CollapseNewlines(CollapseNewlines(t)) == CollapseNewlines(t)
  {
    CollapseNoTriple(t);
    CollapseUnchanged(CollapseNewlines(t));
  }

  /** The first `k` units of a text without triple newlines have none either. */
  lemma NoTriplePrefix(s: JsStr, k: nat)
    requires NoTripleNewline(s) && k <= |s|
    ensures NoTripleNewline(s[..k])
  {
    var p := s[..k];
    forall j | 0 <= j && j + 2 < |p|
      ensures !(p[j] == NL && p[j + 1] == NL && p[j + 2] == NL)
    {
      assert p[j] == s[j] && p[j + 1] == s[j + 1] && p[j + 2] == s[j + 2];
    }
  }

  /**
   * The cleaned text is the collapsed text when that fits in 50000 units,
   * else its first 50000 units and the marker; the kept part has no triple
   * newline and every unit of the input that is not a newline survives up to
   * the cut.
   */
  lemma CleanTextShape(t: JsStr)
    ensures var c := CollapseNewlines(t);
      && |c| <= |t|
      && DropNewlines(c) == DropNewlines(t)
      && (|c| <= MaxTextLength ==> CleanText(t) == c && NoTripleNewline(CleanText(t)))
      && (|c| > MaxTextLength ==>
            CleanText(t) == c[..MaxTextLength] + CutMarker && NoTripleNewline(c[..MaxTextLength]))
  {
    var c := CollapseNewlines(t);
    CollapseNeverLonger(t);
    CollapseKeepsText(t);
    CollapseNoTriple(t);
    if |c| > MaxTextLength {
      NoTriplePrefix(c, MaxTextLength);
    }
  }

  /** A text of at most 50000 units without triple newlines comes through cleaning unchanged. */
  lemma CleanTextUnchanged(t: JsStr)
    requires |t| <= MaxTextLength && NoTripleNewline(t)
    ensures CleanText(t) == t
  {
    CollapseUnchanged(t);
  }

  /** What Readability's `parse()` returned, when it returned an object. */
  datatype Article = Article(title: Option<JsStr>, textContent: Option<JsStr>)

  /**
   * What the content script can see of the page. `readability` is None
   * when Readability returned null or threw; `innerText` gives the text of
   * the first element a selector matches, None when none does.
   */
  datatype Page = Page(
    url: JsStr,
    documentTitle: JsStr,
    readability: Option<Article>,
    innerText: JsStr -> Option<JsStr>,
    bodyText: JsStr)

  /** The message sent back to the popup. */
  datatype Extraction = Extraction(title: JsStr, text: JsStr, url: JsStr)

  /** The fallback selectors, tried in this order. */
  const Selectors: seq<JsStr> := [
    Lit("article"), Lit("[role=\"article\"]"), Lit(".post-content"),
    Lit(".article-content"), Lit(".entry-content"), Lit("main")]

  /** A text is used only when, trimmed, it is longer than 200 units. */
  predicate Qualifies(o: Option<JsStr>)
  {
    o.Some? && |Trim(o.value)| > 200
  }

  predicate ArticleQualifies(a: Option<Article>)
  {
    a.Some? && Qualifies(a.value.textContent)
  }

  /** `article.title || document.title` */
  function ArticleTitle(a: Article, documentTitle: JsStr): (r: JsStr)
    ensures a.title.Some? && |a.title.value| > 0 ==> r == a.title.value
    ensures a.title.None? || |a.title.value| == 0 ==> r == documentTitle
  {
    if a.title.Some? && |a.title.value| > 0 then a.title.value else documentTitle
  }

  /** Whether the `k`-th selector's element text qualifies. */
  function SelectorQualifies(innerText: JsStr -> Option<JsStr>): (ok: nat -> bool)
  {
    (k: nat) => k < |Selectors| && Qualifies(innerText(Selectors[k]))
  }

  /** The first index from `from` on, below `n`, at which `ok` holds. */
  function FirstWhere(ok: nat -> bool, from: nat, n: nat): (r: Option<nat>)
    ensures r.Some? ==> from <= r.value < n && ok(r.value)
    ensures r.Some? ==> forall j :: from <= j < r.value ==> !ok(j)
    ensures r.None? ==> forall j :: from <= j < n ==> !ok(j)
    decreases n - from
  {
    if from >= n then None
    else if ok(from) then Some(from)
    else FirstWhere(ok, from + 1, n)
  }

  /** The index at which `ok` first holds is the one `FirstWhere` finds. */
  lemma {:induction false} FirstWhereIs(ok: nat -> bool, from: nat, n: nat, k: nat)
    requires from <= k < n && ok(k)
    requires forall j :: from <= j < k ==> !ok(j)
    ensures FirstWhere(ok, from, n) == Some(k)
    decreases k - from
  {
    if from < k {
      FirstWhereIs(ok, from + 1, n, k);
    }
  }

  /** The first selector whose element text qualifies. */
  function FirstQualifying(innerText: JsStr -> Option<JsStr>): (r: Option<nat>)
    ensures r.Some? ==> r.value < |Selectors| && Qualifies(innerText(Selectors[r.value]))
  {
    FirstWhere(SelectorQualifies(innerText), 0, |Selectors|)
  }

  /** What `extractFromPage` returns for a page. */
  function FromPage(p: Page): (r: Extraction)
    ensures r.url == p.url
  {
    if ArticleQualifies(p.readability) then
      var a := p.readability.value;
      Extraction(ArticleTitle(a, p.documentTitle), CleanText(Trim(a.textContent.value)), p.url)
    else
      match FirstQualifying(p.innerText)
      case Some(k) => Extraction(p.documentTitle, CleanText(Trim(p.innerText(Selectors[k]).value)), p.url)
      case None => Extraction(p.documentTitle, CleanText(Trim(p.bodyText)), p.url)
  }

  /** The `for (const sel of selectors)` loop: the index of the first selector whose element text qualifies. */
  method FirstSelector(innerText: JsStr -> Option<JsStr>) returns (r: Option<nat>)
    ensures r == FirstWhere(SelectorQualifies(innerText), 0, |Selectors|)
  {
    var k := 0;
    while k < |Selectors|
      invariant 0 <= k <= |Selectors|
      invariant FirstWhere(SelectorQualifies(innerText), 0, |Selectors|) == FirstWhere(SelectorQualifies(innerText), k, |Selectors|)
    {
      var text := innerText(Selectors[k]);
      if text.Some? && |Trim(text.value)| > 200 {
        return Some(k);
      }
      k := k + 1;
    }
    return None;
  }

  /** `extractFromPage`: Readability first, then the selectors in order, then the body. */
  method ExtractFromPage(page: Page) returns (r: Extraction)
    ensures r == FromPage(page)
  {
    if page.readability.Some? && Qualifies(page.readability.value.textContent) {
      var a := page.readability.value;
      return Extraction(ArticleTitle(a, page.documentTitle), CleanText(Trim(a.textContent.value)), page.url);
    }
    var found := FirstSelector(page.innerText);
    if found.Some? {
      var text := page.innerText(Selectors[found.value]).value;
      return Extraction(page.documentTitle, CleanText(Trim(text)), page.url);
    }
    return Extraction(page.documentTitle, CleanText(Trim(page.bodyText)), page.url);
  }

  /** A Readability article longer than 200 units (trimmed) wins, whatever the selectors find. */
  lemma ReadabilityPreferred(p: Page)
    requires ArticleQualifies(p.readability)
    ensures FromPage(p).text == CleanText(Trim(p.readability.value.textContent.value))
    ensures FromPage(p).title == ArticleTitle(p.readability.value, p.documentTitle)
  {
  }

  /**
   * Without a qualifying article, the first selector whose text qualifies
   * supplies the text even when earlier selectors matched shorter elements,
   * and the title is the document's.
   */
  lemma SelectorOrder(p: Page, k: nat)
    requires !ArticleQualifies(p.readability)
    requires k < |Selectors| && Qualifies(p.innerText(Selectors[k]))
    requires forall j :: 0 <= j < k ==> !Qualifies(p.innerText(Selectors[j]))
    ensures FromPage(p).text == CleanText(Trim(p.innerText(Selectors[k]).value))
    ensures FromPage(p).title == p.documentTitle
  {
    assert FirstQualifying(p.innerText) == Some(k) by {
      FirstWhereIs(SelectorQualifies(p.innerText), 0, |Selectors|, k);
    }
  }

  /** With nothing qualifying, the body text is used, however short it is, even empty. */
  lemma BodyFallback(p: Page)
    requires !ArticleQualifies(p.readability)
    requires forall j :: 0 <= j < |Selectors| ==> !Qualifies(p.innerText(Selectors[j]))
    ensures FromPage(p) == Extraction(p.documentTitle, CleanText(Trim(p.bodyText)), p.url)
  {
  }

  /** An article of exactly 200 units after trimming is not enough. */
  lemma TwoHundredIsNotEnough(a: Article)
    requires a.textContent.Some? && |Trim(a.textContent.value)| == 200
    ensures !ArticleQualifies(Some(a))
  {
  }

  /** Whatever the page, the text sent back is at most 50000 units plus the marker, and has no triple newline before the cut. */
  lemma ExtractionBounded(p: Page)
    ensures |FromPage(p).text| <= MaxTextLength + |CutMarker|
    ensures |FromPage(p).text| <= MaxTextLength ==> NoTripleNewline(FromPage(p).text)
  {
    var t := if ArticleQualifies(p.readability) then Trim(p.readability.value.textContent.value)
      else match FirstQualifying(p.innerText)
        case Some(k) => Trim(p.innerText(Selectors[k]).value)
        case None => Trim(p.bodyText);
    assert FromPage(p).text == CleanText(t);
    CleanTextShape(t);
  }
}
