/**
 * The HTML-to-article pipeline of the URL endpoint: `extractArticleText`
 * (remove unwanted sections and comments, try eight candidate finders in a
 * fixed order, fall back to the page body) and `extractTitle`. The regular
 * expressions with lazy quantifiers and back-references become scanners
 * over the code units; `extractByAttr`, `extractByClass` and the
 * `og:title` match are given as finders.
 */
module ArticleExtract {
  import opened Wrappers
  import opened JsText
  import opened TextClean
  import opened CleanText

  /* ---------- removing sections ---------- */

  /** The alternatives of `(script|style|…|button)`, in the order they are tried. */
  const SectionNames: seq<JsStr> := [
    Lit("script"), Lit("style"), Lit("noscript"), Lit("nav"), Lit("header"), Lit("footer"),
    Lit("aside"), Lit("form"), Lit("svg"), Lit("iframe"), Lit("button")
  ]

  /** `</name>`. */
  function ClosingTag(name: JsStr): (t: JsStr)
    ensures |t| == |name| + 3
  {
    [LT, SLASH] + name + [GT]
  }

  /**
   * Where a section match that opened with `<` at `i` ends, trying the
   * names from the `k`-th on: the first name found (any case) right after
   * the `<` whose closing tag, compared without regard to case as the
   * back-reference `\1` under the `i` flag is, occurs later; the lazy
   * `[\s\S]*?` stops at the first such closing tag.
   */
  function SectionEnd(s: JsStr, i: nat, k: nat): (r: Option<nat>)
    requires k <= |SectionNames|
    ensures r.Some? ==> i + 2 <= r.value <= |s|
    decreases |SectionNames| - k
  {
    if k == |SectionNames| then None
    else
      var name := SectionNames[k];
      var close := if AtFold(s, i + 1, name) then IndexOf(s, ClosingTag(name), i + 1 + |name|, true) else None;
      if close.Some? then Some(close.value + |name| + 3)
      else SectionEnd(s, i, k + 1)
  }

  /** Where a section match starting at `i` ends, if one starts there. */
  function SectionAt(s: JsStr, i: nat): (r: Option<nat>)
    ensures r.Some? ==> i < |s| && s[i] == LT && i + 2 <= r.value <= |s|
  {
    if i < |s| && s[i] == LT then SectionEnd(s, i, 0) else None
  }

  /** `s.slice(i)` with every section replaced by one space, scanning left to right. */
  function RemoveSectionsFrom(s: JsStr, i: nat): JsStr
    requires i <= |s|
    decreases |s| - i
  {
    if i == |s| then []
    else match SectionAt(s, i)
      case Some(e) => [SPACE] + RemoveSectionsFrom(s, e)
      case None => [s[i]] + RemoveSectionsFrom(s, i + 1)
  }

  /** `/<(script|style|noscript|nav|header|footer|aside|form|svg|iframe|button)[\s\S]*?<\/\1>/gi` replaced by a space. */
  function RemoveSections(html: JsStr): JsStr
  {
    RemoveSectionsFrom(html, 0)
  }

  /** Removing sections never lengthens the text, and leaves text without `<` as it is. */
  lemma {:induction false} RemoveSectionsFromShape(s: JsStr, i: nat)
    requires i <= |s|
    ensures |RemoveSectionsFrom(s, i)| <= |s| - i
    ensures LT !in s[i..] ==> RemoveSectionsFrom(s, i) == s[i..]
    decreases |s| - i
  {
    if i < |s| {
      assert s[i..] == [s[i]] + s[i + 1..];
      match SectionAt(s, i)
      case Some(e) =>
        RemoveSectionsFromShape(s, e);
      case None =>
        RemoveSectionsFromShape(s, i + 1);
    }
  }

  lemma RemoveSectionsShape(html: JsStr)
    ensures |RemoveSections(html)| <= |html|
    ensures LT !in html ==> RemoveSections(html) == html
  {
    RemoveSectionsFromShape(html, 0);
    assert html[0..] == html;
  }

  /**
   * The back-reference ignores case as the name does: a `script` section
   * opened and closed in any mix of cases, with no `<` inside it or
   * around it, becomes one space and the text around it stays as it was.
   */
  lemma ScriptRemoved(a: JsStr, open: JsStr, inner: JsStr, close: JsStr, b: JsStr)
    requires LT !in a && LT !in inner && LT !in b
    requires |open| == 6 && AtFold(open, 0, Lit("script")) && |close| == 6 && AtFold(close, 0, Lit("script"))
    ensures RemoveSections(a + [LT] + open + inner + [LT, SLASH] + close + [GT] + b) == a + [SPACE] + b
  {
    var s := a + [LT] + open + inner + [LT, SLASH] + close + [GT] + b;
    var c := |a| + 7 + |inner|;
    SectionLayout(s, a, open, inner, close, b, c);
    ScriptRemovedAt(s, a, open, inner, close, b, c);
  }

  /** `ScriptRemoved` for a text known only through where its parts sit. */
  lemma ScriptRemovedAt(s: JsStr, a: JsStr, open: JsStr, inner: JsStr, close: JsStr, b: JsStr, c: nat)
    requires LT !in a && LT !in inner && LT !in b
    requires |open| == 6 && AtFold(open, 0, Lit("script")) && |close| == 6 && AtFold(close, 0, Lit("script"))
    requires c == |a| + 7 + |inner| && |s| == c + 9 + |b|
    requires s[..|a|] == a && s[|a|] == LT
    requires s[|a| + 1..|a| + 7] == open && s[|a| + 7..c] == inner
    requires s[c] == LT && s[c + 1] == SLASH && s[c + 2..c + 8] == close && s[c + 8] == GT
    requires s[c + 9..] == b
    ensures RemoveSections(s) == a + [SPACE] + b
  {
    ScriptFound(s, |a|, open, inner, close, c);
    SectionSplice(s, a, c + 9, b);
  }

  /** Where the parts of a section sit. */
  lemma SectionLayout(s: JsStr, a: JsStr, open: JsStr, inner: JsStr, close: JsStr, b: JsStr, c: nat)
    requires |open| == 6 && |close| == 6 && c == |a| + 7 + |inner|
    requires s == a + [LT] + open + inner + [LT, SLASH] + close + [GT] + b
    ensures |s| == c + 9 + |b|
    ensures s[..|a|] == a && s[|a|] == LT
    ensures s[|a| + 1..|a| + 7] == open && s[|a| + 7..c] == inner
    ensures s[c] == LT && s[c + 1] == SLASH && s[c + 2..c + 8] == close && s[c + 8] == GT
    ensures s[c + 9..] == b
  {
    assert s == a + ([LT] + (open + (inner + ([LT, SLASH] + (close + ([GT] + b))))));
  }

  /** The prose before the section and the text after it, both without `<`, are kept; the section becomes a space. */
  lemma SectionSplice(s: JsStr, a: JsStr, e: nat, b: JsStr)
    requires LT !in a && LT !in b && |a| < e <= |s|
    requires s[..|a|] == a && s[e..] == b
    requires SectionAt(s, |a|) == Some(e)
    ensures RemoveSections(s) == a + [SPACE] + b
  {
    SectionStep(s, |a|, e);
    assert RemoveSections(s) == a + RemoveSectionsFrom(s, |a|) by {
      SectionsSkipped(s, a, 0);
      assert a[0..] == a;
    }
    assert RemoveSectionsFrom(s, e) == b by {
      RemoveSectionsFromShape(s, e);
    }
    Assoc3(a, [SPACE], b);
  }

  lemma Assoc3(a: JsStr, m: JsStr, b: JsStr)
    ensures a + (m + b) == a + m + b
  {
  }

  /** Where a section starts, the scan emits one space and resumes where it ends. */
  lemma SectionStep(s: JsStr, i: nat, e: nat)
    requires i <= |s| && SectionAt(s, i) == Some(e)
    ensures e <= |s| && RemoveSectionsFrom(s, i) == [SPACE] + RemoveSectionsFrom(s, e)
  {
  }

  /** Prose without `<` is kept unit by unit. */
  lemma {:induction false} SectionsSkipped(s: JsStr, a: JsStr, i: nat)
    requires |a| <= |s| && s[..|a|] == a && LT !in a && i <= |a|
    ensures RemoveSectionsFrom(s, i) == a[i..] + RemoveSectionsFrom(s, |a|)
    decreases |a| - i
  {
    if i < |a| {
      assert s[i] == a[i];
      SectionsSkipped(s, a, i + 1);
      assert a[i..] == [a[i]] + a[i + 1..];
    }
  }

  /** Only `<` itself folds to `<`. */
  lemma FoldLt(x: Unit)
    ensures EqFold(x, LT) <==> x == LT
  {
  }

  /** A `script` section at `m` is found and ends right after its closing tag. */
  lemma ScriptFound(s: JsStr, m: nat, open: JsStr, inner: JsStr, close: JsStr, c: nat)
    requires LT !in inner
    requires |open| == 6 && AtFold(open, 0, Lit("script")) && |close| == 6 && AtFold(close, 0, Lit("script"))
    requires c == m + 7 + |inner| && c + 9 <= |s| && s[m] == LT
    requires s[m + 1..m + 7] == open && s[m + 7..c] == inner
    requires s[c] == LT && s[c + 1] == SLASH && s[c + 2..c + 8] == close && s[c + 8] == GT
    ensures SectionAt(s, m) == Some(m + 16 + |inner|)
  {
    ScriptNameAt(s, m + 1, open);
    FirstScriptClose(s, m + 7, inner, close, c);
    ScriptSectionEnd(s, m, c);
  }

  /** `script` is the first name tried: with its closing tag found at `c`, the section ends after it. */
  lemma ScriptSectionEnd(s: JsStr, i: nat, c: nat)
    requires AtFold(s, i + 1, Lit("script"))
    requires IndexOf(s, ClosingTag(Lit("script")), i + 7, true) == Some(c)
    ensures SectionEnd(s, i, 0) == Some(c + 9)
  {
    assert SectionNames[0] == Lit("script");
  }

  /** The search for `</script>` from the start of the section's inner text stops at `c`. */
  lemma FirstScriptClose(s: JsStr, p: nat, inner: JsStr, close: JsStr, c: nat)
    requires LT !in inner && c == p + |inner| && c + 9 <= |s| && s[p..c] == inner
    requires |close| == 6 && AtFold(close, 0, Lit("script"))
    requires s[c] == LT && s[c + 1] == SLASH && s[c + 2..c + 8] == close && s[c + 8] == GT
    ensures IndexOf(s, ClosingTag(Lit("script")), p, true) == Some(c)
  {
    var tag := ClosingTag(Lit("script"));
    ScriptCloseAt(s, c, close);
    forall j | p <= j < c
      ensures !AtFold(s, j, tag)
    {
      assert s[j] == inner[j - p];
      NoTagAt(s, j, tag);
    }
    IndexOfFirst(s, tag, p, true, c);
  }

  /** The name after the `<`, in whatever case, is `script`. */
  lemma ScriptNameAt(s: JsStr, p: nat, open: JsStr)
    requires |open| == 6 && AtFold(open, 0, Lit("script"))
    requires p + 6 <= |s| && s[p..p + 6] == open
    ensures AtFold(s, p, Lit("script"))
  {
    var name := Lit("script");
    forall t | 0 <= t < 6 ensures EqFold(s[p + t], name[t]) {
      assert s[p + t] == open[t];
      assert EqFold(open[0 + t], name[t]);
    }
  }

  /** `</` + `close` + `>` is the closing tag of `script`, compared without regard to case. */
  lemma ScriptCloseAt(s: JsStr, c: nat, close: JsStr)
    requires |close| == 6 && AtFold(close, 0, Lit("script"))
    requires c + 9 <= |s| && s[c] == LT && s[c + 1] == SLASH && s[c + 2..c + 8] == close && s[c + 8] == GT
    ensures AtFold(s, c, ClosingTag(Lit("script")))
  {
    var name := Lit("script");
    var tag := ClosingTag(name);
    forall t | 0 <= t < 9 ensures EqFold(s[c + t], tag[t]) {
      if 2 <= t < 8 {
        assert tag[t] == name[t - 2];
        assert s[c + t] == close[t - 2];
        assert EqFold(close[0 + (t - 2)], name[t - 2]);
      }
    }
  }

  /** A closing tag starts with `<`, so none starts at a unit that is not `<`. */
  lemma NoTagAt(s: JsStr, j: nat, tag: JsStr)
    requires j < |s| && s[j] != LT && |tag| > 0 && tag[0] == LT
    ensures !AtFold(s, j, tag)
  {
    FoldLt(s[j]);
  }

  /* ---------- removing comments ---------- */

  const CommentOpen: JsStr := Lit("<!--")
  const CommentClose: JsStr := Lit("-->")

  /** Where a comment starting at `i` ends: after the first `-->` that follows the `<!--`. */
  function CommentAt(s: JsStr, i: nat): (r: Option<nat>)
    ensures r.Some? ==> At(s, i, CommentOpen) && i + 7 <= r.value <= |s| && At(s, r.value - 3, CommentClose)
    ensures r.Some? ==> forall j :: i + 4 <= j < r.value - 3 ==> !At(s, j, CommentClose)
    ensures At(s, i, CommentOpen) && r.None? ==> forall j :: i + 4 <= j ==> !At(s, j, CommentClose)
  {
    if At(s, i, CommentOpen) then
      match IndexOf(s, CommentClose, i + 4, false)
      case Some(e) => Some(e + 3)
      case None => None
    else None
  }

  /** `s.slice(i)` with every comment removed. */
  function RemoveCommentsFrom(s: JsStr, i: nat): JsStr
    requires i <= |s|
    decreases |s| - i
  {
    if i == |s| then []
    else match CommentAt(s, i)
      case Some(e) => RemoveCommentsFrom(s, e)
      case None => [s[i]] + RemoveCommentsFrom(s, i + 1)
  }

  /** `/<!--[\s\S]*?-->/g` replaced by nothing. */
  function RemoveComments(html: JsStr): JsStr
  {
    RemoveCommentsFrom(html, 0)
  }

  /** Removing comments never lengthens the text, and leaves text without `<` as it is. */
  lemma {:induction false} RemoveCommentsFromShape(s: JsStr, i: nat)
    requires i <= |s|
    ensures |RemoveCommentsFrom(s, i)| <= |s| - i
    ensures LT !in s[i..] ==> RemoveCommentsFrom(s, i) == s[i..]
    decreases |s| - i
  {
    if i < |s| {
      assert s[i..] == [s[i]] + s[i + 1..];
      match CommentAt(s, i)
      case Some(e) =>
        StartsWith(s, i, CommentOpen);
        RemoveCommentsFromShape(s, e);
      case None =>
        RemoveCommentsFromShape(s, i + 1);
    }
  }

  lemma RemoveCommentsShape(html: JsStr)
    ensures |RemoveComments(html)| <= |html|
    ensures LT !in html ==> RemoveComments(html) == html
  {
    RemoveCommentsFromShape(html, 0);
    assert html[0..] == html;
  }

  /**
   * A comment is removed whole, and the scan goes on right after it: text
   * without `<` on either side of one closed comment keeps just those sides.
   */
  lemma CommentRemoved(a: JsStr, body: JsStr, b: JsStr)
    requires LT !in a && LT !in b && NoClose(body)
    ensures RemoveComments(a + CommentOpen + body + CommentClose + b) == a + b
  {
    CommentLayout(a, body, b);
    CommentSplice(a + CommentOpen + body + CommentClose + b, a, body, b);
  }

  lemma CommentSplice(s: JsStr, a: JsStr, body: JsStr, b: JsStr)
    requires LT !in a && LT !in b && NoClose(body)
    requires |s| == |a| + 7 + |body| + |b| && s[..|a|] == a && s[|a|..|a| + 4] == CommentOpen
    requires forall t :: 0 <= t < |body| ==> s[|a| + 4 + t] == body[t]
    requires s[|a| + 4 + |body|..|a| + 7 + |body|] == CommentClose
    requires s[|a| + 4 + |body|] == U('-') && s[|a| + 5 + |body|] == U('-')
    requires s[|a| + 7 + |body|..] == b
    ensures RemoveComments(s) == a + b
  {
    var e := |a| + 7 + |body|;
    assert RemoveCommentsFrom(s, |a|) == RemoveCommentsFrom(s, e) by {
      CommentFound(s, |a|, body);
      CommentStep(s, |a|, e);
    }
    assert RemoveCommentsFrom(s, e) == b by {
      RemoveCommentsFromShape(s, e);
    }
    assert RemoveComments(s) == a + RemoveCommentsFrom(s, |a|) by {
      CommentSkipped(s, a, 0);
      assert a[0..] == a;
    }
  }

  /** Where a comment starts, the scan emits nothing and resumes after it. */
  lemma CommentStep(s: JsStr, i: nat, e: nat)
    requires i <= |s| && CommentAt(s, i) == Some(e)
    ensures e <= |s| && RemoveCommentsFrom(s, i) == RemoveCommentsFrom(s, e)
  {
  }

  /** Where the parts of `a + <!-- + body + --> + b` sit. */
  lemma CommentLayout(a: JsStr, body: JsStr, b: JsStr)
    ensures var s := a + CommentOpen + body + CommentClose + b;
      && |s| == |a| + 7 + |body| + |b|
      && s[..|a|] == a
      && s[|a|..|a| + 4] == CommentOpen
      && (forall t :: 0 <= t < |body| ==> s[|a| + 4 + t] == body[t])
      && s[|a| + 4 + |body|..|a| + 7 + |body|] == CommentClose
      && s[|a| + 4 + |body|] == U('-') && s[|a| + 5 + |body|] == U('-')
      && s[|a| + 7 + |body|..] == b
  {
    var s := a + CommentOpen + body + CommentClose + b;
    assert s == a + (CommentOpen + (body + (CommentClose + b)));
    var q := |a| + 4 + |body|;
    assert s[q..q + 3][0] == s[q] && s[q..q + 3][1] == s[q + 1];
  }

  /** No `-->` anywhere in `s`. */
  predicate NoClose(s: JsStr)
  {
    forall j :: 0 <= j <= |s| - 3 ==> !(s[j] == U('-') && s[j + 1] == U('-') && s[j + 2] == U('>'))
  }

  /** Text that has `p` at `i` has `p`'s first unit there. */
  lemma StartsWith(s: JsStr, i: nat, p: JsStr)
    requires |p| > 0
    ensures At(s, i, p) ==> s[i] == p[0]
  {
    if At(s, i, p) {
      assert s[i..i + |p|][0] == s[i];
    }
  }

  /** The prose before the comment, holding no `<`, is kept unit by unit. */
  lemma {:induction false} CommentSkipped(s: JsStr, a: JsStr, i: nat)
    requires |a| <= |s| && s[..|a|] == a && LT !in a && i <= |a|
    ensures RemoveCommentsFrom(s, i) == a[i..] + RemoveCommentsFrom(s, |a|)
    decreases |a| - i
  {
    if i < |a| {
      assert s[i] == a[i];
      StartsWith(s, i, CommentOpen);
      CommentSkipped(s, a, i + 1);
      assert a[i..] == [a[i]] + a[i + 1..];
    }
  }

  /** A `<!--` at `m`, the body, then `-->`: the comment ends right after that `-->`. */
  lemma CommentFound(s: JsStr, m: nat, body: JsStr)
    requires m + 7 + |body| <= |s| && NoClose(body)
    requires s[m..m + 4] == CommentOpen
    requires forall t :: 0 <= t < |body| ==> s[m + 4 + t] == body[t]
    requires s[m + 4 + |body|..m + 7 + |body|] == CommentClose
    requires s[m + 4 + |body|] == U('-') && s[m + 5 + |body|] == U('-')
    ensures CommentAt(s, m) == Some(m + 7 + |body|)
  {
    var q := m + 4 + |body|;
    forall j | m + 4 <= j < q
      ensures !At(s, j, CommentClose)
    {
      CloseInside(s, m + 4, body, j);
    }
    IndexOfFirst(s, CommentClose, m + 4, false, q);
  }

  /** A `-->` starting inside the body would run into the body or into the first units of the closing `-->`. */
  lemma CloseInside(s: JsStr, c: nat, body: JsStr, j: nat)
    requires c + |body| + 2 <= |s| && NoClose(body)
    requires forall t :: 0 <= t < |body| ==> s[c + t] == body[t]
    requires s[c + |body|] == U('-') && s[c + |body| + 1] == U('-')
    requires c <= j < c + |body|
    ensures !At(s, j, CommentClose)
  {
    var k := j - c;
    AtClose(s, j);
    if k + 3 <= |body| {
      assert body[k] == s[j] && body[k + 1] == s[j + 1] && body[k + 2] == s[j + 2];
    } else {
      assert s[j + 2] == U('-');
    }
  }

  /** `-->` at `j`, unit by unit. */
  lemma AtClose(s: JsStr, j: nat)
    ensures At(s, j, CommentClose) <==> j + 3 <= |s| && s[j] == U('-') && s[j + 1] == U('-') && s[j + 2] == U('>')
  {
    if j + 3 <= |s| {
      assert s[j..j + 3][0] == s[j] && s[j..j + 3][1] == s[j + 1] && s[j..j + 3][2] == s[j + 2];
    }
  }

  /* ---------- the element finders ---------- */

  /**
   * The capture of `<tag[^>]*>([\s\S]*?)<\/tag>` with the `i` flag: the
   * first `<tag` (any case) decides, since a later start would need a `>`
   * and a closing tag after ones already missing. The content runs from
   * after the first `>` that follows to the first closing tag after that.
   */
  function TagContent(html: JsStr, tag: JsStr): (r: Option<JsStr>)
    ensures r.Some? ==> |r.value| <= |html|
    ensures r.Some? ==> forall j :: 0 <= j ==> !AtFold(r.value, j, ClosingTag(tag))
  {
    match IndexOf(html, [LT] + tag, 0, true)
    case None => None
    case Some(k) =>
      match IndexOfUnit(html, GT, k + 1 + |tag|)
      case None => None
      case Some(g) =>
        match IndexOf(html, ClosingTag(tag), g + 1, true)
        case None => None
        case Some(e) =>
          NoCloseInside(html, ClosingTag(tag), g + 1, e);
          Some(html[g + 1..e])
  }

  /** `<tag`, in any case, starts at `k` and nowhere before. */
  predicate FirstOpening(html: JsStr, tag: JsStr, k: nat)
  {
    AtFold(html, k, [LT] + tag) && forall j :: 0 <= j < k ==> !AtFold(html, j, [LT] + tag)
  }

  /** The first `>` at or after `from` is at `g`. */
  predicate FirstGt(html: JsStr, from: nat, g: nat)
  {
    from <= g < |html| && html[g] == GT && forall j :: from <= j < g ==> html[j] != GT
  }

  /** The first closing tag, in any case, at or after `from` starts at `e`. */
  predicate FirstClosing(html: JsStr, tag: JsStr, from: nat, e: nat)
  {
    from <= e && AtFold(html, e, ClosingTag(tag)) && forall j :: from <= j < e ==> !AtFold(html, j, ClosingTag(tag))
  }

  /**
   * The capture is the text strictly between the first `>` after the first
   * `<tag` and the first closing tag after that `>`.
   */
  lemma TagContentIs(html: JsStr, tag: JsStr, k: nat, g: nat, e: nat)
    requires FirstOpening(html, tag, k) && FirstGt(html, k + 1 + |tag|, g) && FirstClosing(html, tag, g + 1, e)
    ensures TagContent(html, tag) == Some(html[g + 1..e])
  {
    IndexOfFirst(html, [LT] + tag, 0, true, k);
    IndexOfFirst(html, ClosingTag(tag), g + 1, true, e);
  }

  /** Without a `<tag` there is no capture. */
  lemma NoOpeningNoContent(html: JsStr, tag: JsStr)
    requires forall j :: 0 <= j ==> !AtFold(html, j, [LT] + tag)
    ensures TagContent(html, tag).None?
  {
  }

  /** Without a `>` after the first `<tag` there is no capture. */
  lemma UnclosedOpeningNoContent(html: JsStr, tag: JsStr, k: nat)
    requires FirstOpening(html, tag, k)
    requires forall j :: k + 1 + |tag| <= j < |html| ==> html[j] != GT
    ensures TagContent(html, tag).None?
  {
    IndexOfFirst(html, [LT] + tag, 0, true, k);
  }

  /** Without a closing tag after the first `>` that follows the first `<tag` there is no capture. */
  lemma NoClosingNoContent(html: JsStr, tag: JsStr, k: nat, g: nat)
    requires FirstOpening(html, tag, k) && FirstGt(html, k + 1 + |tag|, g)
    requires forall j :: g + 1 <= j ==> !AtFold(html, j, ClosingTag(tag))
    ensures TagContent(html, tag).None?
  {
    IndexOfFirst(html, [LT] + tag, 0, true, k);
  }

  /** Where `p` does not start in `[a, e)` it does not occur inside `s[a..e]` either. */
  lemma NoCloseInside(s: JsStr, p: JsStr, a: nat, e: nat)
    requires a <= e <= |s| && |p| > 0
    requires forall j :: a <= j < e ==> !AtFold(s, j, p)
    ensures forall j :: 0 <= j ==> !AtFold(s[a..e], j, p)
  {
    forall j | 0 <= j
      ensures !AtFold(s[a..e], j, p)
    {
      AtFoldInSlice(s, p, a, e, j);
    }
  }

  /** An occurrence inside a slice is an occurrence in the whole text, short of the slice's end. */
  lemma AtFoldInSlice(s: JsStr, p: JsStr, a: nat, e: nat, j: nat)
    requires a <= e <= |s|
    ensures AtFold(s[a..e], j, p) ==> AtFold(s, a + j, p) && (a + j < e || |p| == 0)
  {
    if AtFold(s[a..e], j, p) {
      forall t | 0 <= t < |p|
        ensures EqFold(s[a + j + t], p[t])
      {
        assert s[a..e][j + t] == s[a + j + t];
      }
    }
  }

  /** `extractByTag(html, tag)`: the stripped content, or None where it is `null`. */
  function ExtractByTag(html: JsStr, tag: JsStr): (r: Option<JsStr>)
    ensures r.Some? <==> TagContent(html, tag).Some?
    ensures r.Some? ==> |r.value| <= |TagContent(html, tag).value|
    ensures r.Some? ==> r.value == StripTags(TagContent(html, tag).value)
  {
    match TagContent(html, tag)
    case Some(c) => Some(StripTags(c))
    case None => None
  }

  /**
   * `/<body[\s\S]*?>([\s\S]*)<\/body>/i`: from after the first `>` that
   * follows the first `<body`, up to the last `</body>` (the greedy group
   * gives back only as far as it must), when that one comes after the `>`.
   */
  function BodyContent(html: JsStr): (r: Option<JsStr>)
    ensures r.Some? ==> |r.value| <= |html|
  {
    match BodyStart(html)
    case None => None
    case Some(b) =>
      match LastIndexOf(html, Lit("</body>"), true)
      case Some(e) => if b <= e <= |html| then Some(html[b..e]) else None
      case None => None
  }

  /** Where the body content starts: after the first `>` that follows the first `<body`. */
  function BodyStart(html: JsStr): Option<nat>
  {
    match IndexOf(html, Lit("<body"), 0, true)
    case None => None
    case Some(k) =>
      match IndexOfUnit(html, GT, k + 5)
      case None => None
      case Some(g) => Some(g + 1)
  }

  /**
   * The body content runs to the last `</body>`: every `</body>` from its
   * start on begins inside the content or right at its end.
   */
  lemma BodyReachesLastClose(html: JsStr, e: nat)
    requires BodyContent(html).Some? && AtFold(html, e, Lit("</body>"))
    ensures BodyStart(html).Some?
    ensures BodyStart(html).value <= e ==> e <= BodyStart(html).value + |BodyContent(html).value|
  {
  }

  /**
   * `extractByAttr`, `extractByClass` and the `og:title` match, which this
   * model does not scan: each gives the text it would return, or None.
   */
  datatype Finders = Finders(
    byAttr: (JsStr, JsStr, JsStr) -> Option<JsStr>,
    byClass: (JsStr, JsStr) -> Option<JsStr>,
    ogTitle: JsStr -> Option<JsStr>)

  /** The page after the unwanted sections and the comments are gone. */
  function Cleaned(html: JsStr): (r: JsStr)
    ensures |r| <= |html|
    ensures LT !in html ==> r == html
  {
    RemoveSectionsShape(html);
    RemoveCommentsShape(RemoveSections(html));
    RemoveComments(RemoveSections(html))
  }

  /** The eight candidates, in the order the `||` chain tries them. */
  function Candidates(cleaned: JsStr, f: Finders): (cs: seq<Option<JsStr>>)
    ensures |cs| == 8
    ensures cs[0] == ExtractByTag(cleaned, Lit("article")) && cs[7] == ExtractByTag(cleaned, Lit("main"))
  {
    [ ExtractByTag(cleaned, Lit("article")),
      f.byAttr(cleaned, Lit("role"), Lit("article")),
      f.byClass(cleaned, Lit("article-content")),
      f.byClass(cleaned, Lit("post-content")),
      f.byClass(cleaned, Lit("entry-content")),
      f.byClass(cleaned, Lit("article-body")),
      f.byClass(cleaned, Lit("story-body")),
      ExtractByTag(cleaned, Lit("main")) ]
  }

  /** A finder's result is truthy when it is a non-empty string. */
  predicate TruthyText(o: Option<JsStr>)
  {
    o.Some? && |o.value| > 0
  }

  /** `a || b || …`: the first truthy value, or the last value when none is. */
  function OrChain(vs: seq<Option<JsStr>>): (r: Option<JsStr>)
    requires |vs| > 0
    ensures r in vs
    ensures TruthyText(r) <==> exists i :: 0 <= i < |vs| && TruthyText(vs[i])
  {
    if |vs| == 1 || TruthyText(vs[0]) then vs[0]
    else
      var r := OrChain(vs[1..]);
      assert forall i :: 1 <= i < |vs| ==> vs[i] == vs[1..][i - 1];
      r
  }

  /** The chain yields the first truthy value. */
  lemma {:induction false} OrChainFirst(vs: seq<Option<JsStr>>, k: nat)
    requires k < |vs| && TruthyText(vs[k])
    requires forall j :: 0 <= j < k ==> !TruthyText(vs[j])
    ensures OrChain(vs) == vs[k]
  {
    if k > 0 {
      OrChainFirst(vs[1..], k - 1);
    }
  }

  /** The fallback: the body content, or the whole cleaned page without one, stripped and cleaned. */
  function Fallback(cleaned: JsStr): (r: JsStr)
    ensures |r| <= MaxTextLength + 18
  {
    var body := BodyContent(cleaned);
    CleanExtractedText(StripTags(if body.Some? then body.value else cleaned))
  }

  /**
   * `extractArticleText`: the chain's value when it is longer than 200
   * units, otherwise the fallback. The result is capped and keeps spaces
   * and tabs apart.
   */
  function ExtractArticleText(html: JsStr, f: Finders): (r: JsStr)
    ensures |r| <= MaxTextLength + 18
    ensures NoAdjacentBlanks(r)
  {
    var cleaned := Cleaned(html);
    var article := OrChain(Candidates(cleaned, f));
    if TruthyText(article) && |article.value| > 200 then CleanExtractedText(article.value)
    else Fallback(cleaned)
  }

  /** The first truthy candidate is used when it is longer than 200 units. */
  lemma FirstCandidateWins(html: JsStr, f: Finders, k: nat)
    requires k < 8
    requires var cs := Candidates(Cleaned(html), f);
      TruthyText(cs[k]) && |cs[k].value| > 200 && forall j :: 0 <= j < k ==> !TruthyText(cs[j])
    ensures ExtractArticleText(html, f) == CleanExtractedText(Candidates(Cleaned(html), f)[k].value)
  {
    OrChainFirst(Candidates(Cleaned(html), f), k);
  }

  /**
   * A first truthy candidate of 200 units or fewer sends the page to the
   * fallback, even when a later candidate would have been long enough.
   */
  lemma ShortFirstCandidateFallsBack(html: JsStr, f: Finders, k: nat)
    requires k < 8
    requires var cs := Candidates(Cleaned(html), f);
      TruthyText(cs[k]) && |cs[k].value| <= 200 && forall j :: 0 <= j < k ==> !TruthyText(cs[j])
    ensures ExtractArticleText(html, f) == Fallback(Cleaned(html))
  {
    OrChainFirst(Candidates(Cleaned(html), f), k);
  }

  /** With no truthy candidate the fallback is used. */
  lemma NoCandidateFallsBack(html: JsStr, f: Finders)
    requires var cs := Candidates(Cleaned(html), f); forall j :: 0 <= j < 8 ==> !TruthyText(cs[j])
    ensures ExtractArticleText(html, f) == Fallback(Cleaned(html))
  {
  }

  /* ---------- the title ---------- */

  /**
   * `extractTitle`: the decoded, trimmed content of the first `<title>`
   * element when there is one (even an empty one), else the `og:title`
   * value, else the empty string.
   */
  function ExtractTitle(html: JsStr, f: Finders): (r: JsStr)
    ensures NoLeadingSpace(r) && NoTrailingSpace(r)
    ensures TagContent(html, Lit("title")).None? && f.ogTitle(html).None? ==> r == []
    ensures TagContent(html, Lit("title")).None? && f.ogTitle(html).Some? ==> r == Trim(DecodeEntities(f.ogTitle(html).value))
  {
    match TagContent(html, Lit("title"))
    case Some(t) => Trim(DecodeEntities(t))
    case None =>
      match f.ogTitle(html)
      case Some(o) => Trim(DecodeEntities(o))
      case None => []
  }

  /** A `<title>` element decides the title whatever the `og:title` finder says. */
  lemma TitleTagPreferred(html: JsStr, f: Finders, g: Finders)
    requires TagContent(html, Lit("title")).Some?
    ensures ExtractTitle(html, f) == ExtractTitle(html, g) == Trim(DecodeEntities(TagContent(html, Lit("title")).value))
  {
  }
}
