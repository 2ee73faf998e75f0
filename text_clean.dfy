/**
 * The server-side text clean-up helpers of the URL endpoint: `stripTags`,
 * `decodeEntities` and `cleanExtractedText`, each a chain of global
 * regular-expression replacements followed, for the last one, by
 * line trimming and the 50000-unit cap.
 */
module TextClean {
  import opened Wrappers
  import opened JsText
  import opened Regex

  /** The elements matching `word` unit by unit, ASCII case ignored when `fold`. */
  function Word(word: JsStr, fold: bool): (p: Pattern)
    ensures |p| == |word| && MinLen(p) == |word|
  {
    if |word| == 0 then []
    else [Atom(One(if fold then Fold(word[0]) else Is(word[0])))] + Word(word[1..], fold)
  }

  /** A pattern each of whose pieces needs exactly one unit needs as many units as it has pieces. */
  lemma {:induction false} MinLenOfUnitPieces(p: Pattern)
    requires forall k :: 0 <= k < |p| ==> PieceMin(p[k]) == 1
    ensures MinLen(p) == |p|
  {
    if |p| > 0 {
      MinLenOfUnitPieces(p[1..]);
    }
  }

  /* ---------- stripTags ---------- */

  /** `/<[^>]+>/g`: a `<`, at least one unit other than `>`, then `>`. */
  const TagPattern: Pattern := [Atom(One(Is(LT))), Atom(Greedy(Not(GT), 1)), Atom(One(Is(GT)))]

  /** `/&nbsp;/gi`. */
  const NbspPattern: Pattern := Word(Lit("&nbsp;"), true)

  /** A tag matches at `i` exactly when a `<` there is closed by the first `>` after it, with something in between. */
  lemma TagMatch(s: JsStr, i: nat)
    requires i <= |s|
    ensures Match(TagPattern, s, i) ==
      (if i < |s| && s[i] == LT && i + 1 + Run(Not(GT), s, i + 1) < |s| && Run(Not(GT), s, i + 1) >= 1
       then Some(i + 2 + Run(Not(GT), s, i + 1)) else None)
  {
    if i < |s| && s[i] == LT {
      var n := Run(Not(GT), s, i + 1);
      var rest: Pattern := [Atom(One(Is(GT)))];
      assert TagPattern[1..] == [Atom(Greedy(Not(GT), 1))] + rest;
      assert Match(TagPattern, s, i) == Match(TagPattern[1..], s, i + 1);
      assert Match(TagPattern[1..], s, i + 1) == Back(rest, s, i + 1, n, 1);
      if n >= 1 {
        BackGivesNothingBack(s, i + 1, n);
      }
    }
  }

  /** Giving back units of a `[^>]+` run never reaches a `>`. */
  lemma {:induction false} BackGivesNothingBack(s: JsStr, i: nat, k: nat)
    requires 1 <= k && i + k <= |s| && k <= Run(Not(GT), s, i)
    ensures Back([Atom(One(Is(GT)))], s, i, k, 1) ==
      (if i + Run(Not(GT), s, i) < |s| && k == Run(Not(GT), s, i) then Some(i + k + 1) else None)
  {
    var rest: Pattern := [Atom(One(Is(GT)))];
    var n := Run(Not(GT), s, i);
    assert rest[1..] == [];
    assert Match(rest, s, i + k) == if i + k < |s| && s[i + k] == GT then Some(i + k + 1) else None;
    if k < n {
      assert s[i + k] != GT;
    }
    if k > 1 {
      BackGivesNothingBack(s, i, k - 1);
    } else {
      assert Back(rest, s, i, 0, 1) == None;
    }
  }

  /**
   * `stripTags`: every `<…>` with at least one unit inside and every
   * `&nbsp;` (any case) becomes one space. It never lengthens the text, and
   * text with no `<` and no `&` comes back unchanged.
   */
  function StripTags(html: JsStr): (r: JsStr)
    ensures |r| <= |html|
    ensures (LT !in html && AMP !in html) ==> r == html
  {
    var tagsOut := Replace(TagPattern, Const([SPACE]), html);
    ReplaceNeverLonger(TagPattern, Const([SPACE]), html, 0);
    ReplaceNeverLonger(NbspPattern, Const([SPACE]), tagsOut, 0);
    AbsentFirstUnit(TagPattern, Const([SPACE]), LT, html);
    AbsentFirstUnit(NbspPattern, Const([SPACE]), AMP, html);
    Replace(NbspPattern, Const([SPACE]), tagsOut)
  }

  /** A pattern that starts with a unit absent from the text matches nowhere, so replacing changes nothing. */
  lemma AbsentFirstUnit(p: Pattern, f: JsStr -> JsStr, u: Unit, s: JsStr)
    requires |p| > 0 && (p[0] == Atom(One(Is(u))) || p[0] == Atom(One(Fold(u))))
    requires u == Lower(u) && (u < 97 || u > 122)
    ensures u !in s ==> Replace(p, f, s) == s
  {
    if u in s { return; }
    forall k | 0 <= k <= |s|
      ensures Match(p, s, k).None?
    {
      if Match(p, s, k).Some? {
        if p[0] == Atom(One(Is(u))) {
          MatchStartsWith(p, Is(u), s, k);
        } else {
          MatchStartsWith(p, Fold(u), s, k);
        }
      }
    }
    ReplaceNoMatch(p, f, s, 0);
  }

  /** A literal pattern matches exactly where its text occurs, and takes just that text. */
  lemma WordMatch(w: JsStr, s: JsStr, i: nat)
    requires i <= |s|
    ensures Match(Word(w, false), s, i) == if At(s, i, w) then Some(i + |w|) else None
  {
    WordThen(w, false, [], s, i);
    assert Word(w, false) + [] == Word(w, false);
  }

  /** A literal followed by more pattern: the literal must occur at `i`, and the rest is matched after it. */
  lemma {:induction false} WordThen(w: JsStr, fold: bool, rest: Pattern, s: JsStr, i: nat)
    requires i <= |s|
    ensures Match(Word(w, fold) + rest, s, i) ==
      if (if fold then AtFold(s, i, w) else At(s, i, w)) then Match(rest, s, i + |w|) else None
    decreases |w|
  {
    var p := Word(w, fold) + rest;
    if |w| == 0 {
      assert p == rest;
      assert s[i..i] == [];
    } else {
      var c := if fold then Fold(w[0]) else Is(w[0]);
      assert p[0] == Atom(One(c));
      assert p[1..] == Word(w[1..], fold) + rest;
      if i < |s| && Has(c, s[i]) {
        WordThen(w[1..], fold, rest, s, i + 1);
        if fold {
          AtFoldStep(s, i, w);
        } else {
          AtStep(s, i, w);
        }
      } else {
        if fold {
          assert !AtFold(s, i, w) by {
            if i < |s| { assert !EqFold(s[i + 0], w[0]); }
          }
        } else {
          assert !At(s, i, w) by {
            if i < |s| && i + |w| <= |s| { assert s[i..i + |w|][0] == s[i]; }
          }
        }
      }
    }
  }

  /** Past a first unit equal to the literal's ignoring case, the literal occurs exactly when its rest does. */
  lemma AtFoldStep(s: JsStr, i: nat, w: JsStr)
    requires 0 < |w| && i < |s| && EqFold(s[i], w[0])
    ensures AtFold(s, i, w) <==> AtFold(s, i + 1, w[1..])
  {
    if AtFold(s, i + 1, w[1..]) {
      forall j | 0 <= j < |w|
        ensures EqFold(s[i + j], w[j])
      {
        if j > 0 { assert w[1..][j - 1] == w[j]; }
      }
    }
    if AtFold(s, i, w) {
      forall j | 0 <= j < |w[1..]|
        ensures EqFold(s[i + 1 + j], w[1..][j])
      {
        assert EqFold(s[i + (j + 1)], w[j + 1]);
      }
    }
  }

  /** Past a first unit equal to the literal's, the literal occurs exactly when its rest does. */
  lemma AtStep(s: JsStr, i: nat, w: JsStr)
    requires 0 < |w| && i < |s| && s[i] == w[0]
    ensures At(s, i, w) <==> At(s, i + 1, w[1..])
  {
    if At(s, i + 1, w[1..]) {
      assert s[i..i + |w|] == [s[i]] + s[i + 1..i + 1 + |w[1..]|];
      assert w == [w[0]] + w[1..];
    }
    if At(s, i, w) {
      assert s[i + 1..i + 1 + |w[1..]|] == s[i..i + |w|][1..];
    }
  }

  /** `p` matches nowhere in `s` except, perhaps, at `m`. */
  predicate OnlyMatchAt(p: Pattern, s: JsStr, m: nat)
  {
    forall k :: 0 <= k <= |s| && k != m ==> NoMatchAt(p, s, k)
  }

  /** `p` does not match at `k`. */
  predicate NoMatchAt(p: Pattern, s: JsStr, k: nat)
    requires k <= |s|
  {
    Match(p, s, k).None?
  }

  lemma MatchesOnlyAt(w: JsStr, s: JsStr, m: nat)
    requires |w| > 0
    requires forall k :: 0 <= k < |s| && k != m ==> s[k] != w[0]
    ensures OnlyMatchAt(Word(w, false), s, m)
  {
    var p := Word(w, false);
    assert p[0] == Atom(One(Is(w[0])));
    forall k | 0 <= k <= |s| && k != m
      ensures NoMatchAt(p, s, k)
    {
      if Match(p, s, k).Some? {
        MatchStartsWith(p, Is(w[0]), s, k);
      }
    }
  }

  /** Such a literal matches at `m`, taking itself, and nowhere else. */
  lemma LiteralOnlyAt(w: JsStr, s: JsStr, m: nat)
    requires |w| > 0 && m + |w| <= |s| && forall j {:trigger w[j]} :: 0 <= j < |w| ==> s[m + j] == w[j]
    requires forall k :: 0 <= k < |s| && k != m ==> s[k] != w[0]
    ensures Match(Word(w, false), s, m) == Some(m + |w|)
    ensures OnlyMatchAt(Word(w, false), s, m)
  {
    assert At(s, m, w) by {
      assert s[m..m + |w|] == w;
    }
    MatchesOnlyAt(w, s, m);
    WordMatch(w, s, m);
  }

  /** With a single match, from `m` to `e`, only that stretch is replaced. */
  lemma ReplaceSingleMatch(p: Pattern, r: JsStr, s: JsStr, m: nat, e: nat)
    requires m < e <= |s|
    requires Match(p, s, m) == Some(e)
    requires OnlyMatchAt(p, s, m)
    ensures Replace(p, Const(r), s) == s[..m] + r + s[e..]
  {
    forall k | 0 <= k <= |s| && k != m
      ensures Match(p, s, k).None?
    {
      assert NoMatchAt(p, s, k);
    }
    ReplaceFirstMatch(p, Const(r), s, 0, m, e);
    ReplaceNoMatch(p, Const(r), s, e);
    assert s[0..m] == s[..m];
  }

  /* ---------- stripTags, one tag or `&nbsp;` at a time ---------- */

  /** The tag pattern matches in the second part of a text just as in that part alone. */
  lemma TagMatchSuffix(x: JsStr, y: JsStr, k: nat)
    requires k <= |y|
    ensures Match(TagPattern, x + y, |x| + k) == Shifted(Match(TagPattern, y, k), |x|)
  {
    TagMatch(x + y, |x| + k);
    TagMatch(y, k);
    if k < |y| {
      assert (x + y)[|x| + k] == y[k];
      RunSuffix(Not(GT), x, y, k + 1);
    }
  }

  /** A literal, ASCII case ignored, matches in the second part of a text just as in that part alone. */
  lemma FoldWordSuffix(w: JsStr, x: JsStr, y: JsStr, k: nat)
    requires k <= |y|
    ensures Match(Word(w, true), x + y, |x| + k) == Shifted(Match(Word(w, true), y, k), |x|)
  {
    assert Word(w, true) + [] == Word(w, true);
    WordThen(w, true, [], x + y, |x| + k);
    WordThen(w, true, [], y, k);
    if AtFold(y, k, w) {
      forall j | 0 <= j < |w|
        ensures EqFold((x + y)[|x| + k + j], w[j])
      {
        assert (x + y)[|x| + k + j] == y[k + j];
      }
    }
    if AtFold(x + y, |x| + k, w) {
      forall j | 0 <= j < |w|
        ensures EqFold(y[k + j], w[j])
      {
        assert (x + y)[|x| + k + j] == y[k + j];
      }
    }
  }

  /** The two passes of `stripTags` over the part of a text after `x` are the passes over that part alone. */
  lemma TagPassSuffix(x: JsStr, y: JsStr)
    ensures ReplaceFrom(TagPattern, Const([SPACE]), x + y, |x|) == Replace(TagPattern, Const([SPACE]), y)
    ensures ReplaceFrom(NbspPattern, Const([SPACE]), x + y, |x|) == Replace(NbspPattern, Const([SPACE]), y)
  {
    forall k | 0 <= k <= |y|
      ensures Match(TagPattern, x + y, |x| + k) == Shifted(Match(TagPattern, y, k), |x|)
    {
      TagMatchSuffix(x, y, k);
    }
    forall k | 0 <= k <= |y|
      ensures Match(NbspPattern, x + y, |x| + k) == Shifted(Match(NbspPattern, y, k), |x|)
    {
      FoldWordSuffix(Lit("&nbsp;"), x, y, k);
    }
    ReplaceSuffix(TagPattern, Const([SPACE]), x, y, 0);
    ReplaceSuffix(NbspPattern, Const([SPACE]), x, y, 0);
  }

  /** A unit that equals `&` ignoring ASCII case is `&`. */
  lemma FoldAmp(u: Unit)
    requires EqFold(u, AMP)
    ensures u == AMP
  {
  }

  /** In text without `&` up to `m`, the `&nbsp;` pass copies the text up to `m`. */
  lemma NbspSkipTo(t: JsStr, m: nat)
    requires m <= |t| && forall k :: 0 <= k < m ==> t[k] != AMP
    ensures ReplaceFrom(NbspPattern, Const([SPACE]), t, 0) == t[..m] + ReplaceFrom(NbspPattern, Const([SPACE]), t, m)
  {
    assert NbspPattern[0] == Atom(One(Fold(AMP)));
    forall k | 0 <= k < m
      ensures Match(NbspPattern, t, k).None?
    {
      if Match(NbspPattern, t, k).Some? {
        MatchStartsWith(NbspPattern, Fold(AMP), t, k);
        FoldAmp(t[k]);
      }
    }
    ReplaceSkipTo(NbspPattern, Const([SPACE]), t, 0, m);
  }

  /**
   * `stripTags` replaces a tag by one space: with no `<` and no `&` before
   * it, and at least one unit but no `>` inside it, the text before the tag
   * is kept, the tag becomes a single space, and the rest is stripped as if
   * it stood alone.
   */
  lemma TagBecomesSpace(a: JsStr, m: JsStr, b: JsStr)
    requires LT !in a && AMP !in a
    requires |m| > 0 && GT !in m
    ensures StripTags(a + [LT] + m + [GT] + b) == a + [SPACE] + StripTags(b)
  {
    var tb := Replace(TagPattern, Const([SPACE]), b);
    TagPassOneTag(a, m, b);
    NbspPassAfter(a + [SPACE], tb);
  }

  /** The tag pass over `a + <m> + b`: `a` kept, one space for the tag, `b` on its own. */
  lemma TagPassOneTag(a: JsStr, m: JsStr, b: JsStr)
    requires LT !in a
    requires |m| > 0 && GT !in m
    ensures Replace(TagPattern, Const([SPACE]), a + [LT] + m + [GT] + b)
      == a + [SPACE] + Replace(TagPattern, Const([SPACE]), b)
  {
    var x := a + [LT] + m + [GT];
    OneTagUnits(a, m, b);
    TagPassAt(x + b, |a|, |m|, |x|);
    TagPassSuffix(x, b);
  }

  /** Where each unit of `a + <m> + b` comes from. */
  lemma OneTagUnits(a: JsStr, m: JsStr, b: JsStr)
    requires LT !in a && GT !in m
    ensures var s := a + [LT] + m + [GT] + b;
      && |a| + |m| + 2 == |a + [LT] + m + [GT]| <= |s| && s[..|a|] == a
      && s[|a|] == LT && s[|a| + 1 + |m|] == GT
      && (forall k :: 0 <= k < |a| ==> s[k] != LT)
      && (forall k :: |a| + 1 <= k < |a| + 1 + |m| ==> s[k] != GT)
  {
    var s := a + [LT] + m + [GT] + b;
    forall k | 0 <= k < |a|
      ensures s[k] != LT
    {
      assert s[k] == a[k];
    }
    forall k | |a| + 1 <= k < |a| + 1 + |m|
      ensures s[k] != GT
    {
      assert s[k] == m[k - |a| - 1];
    }
  }

  /** The tag pass over text with no `<` before a tag of `n` units at `i`: the text before kept, the tag one space. */
  lemma TagPassAt(s: JsStr, i: nat, n: nat, e: nat)
    requires n > 0 && e == i + n + 2 <= |s|
    requires s[i] == LT && s[i + 1 + n] == GT
    requires forall k :: 0 <= k < i ==> s[k] != LT
    requires forall k :: i + 1 <= k < i + 1 + n ==> s[k] != GT
    ensures Replace(TagPattern, Const([SPACE]), s) == s[..i] + [SPACE] + ReplaceFrom(TagPattern, Const([SPACE]), s, e)
  {
    assert TagPattern[0] == Atom(One(Is(LT)));
    forall k | 0 <= k < i
      ensures Match(TagPattern, s, k).None?
    {
      if Match(TagPattern, s, k).Some? {
        MatchStartsWith(TagPattern, Is(LT), s, k);
      }
    }
    TagAt(s, i, n);
    ReplaceFirstMatch(TagPattern, Const([SPACE]), s, 0, i, e);
    assert s[0..i] == s[..i];
  }

  /** A tag of `n` units at `i` is a match of the tag pattern that takes it whole. */
  lemma TagAt(s: JsStr, i: nat, n: nat)
    requires n > 0 && i + n + 2 <= |s|
    requires s[i] == LT && s[i + 1 + n] == GT
    requires forall k :: i + 1 <= k < i + 1 + n ==> s[k] != GT
    ensures Match(TagPattern, s, i) == Some(i + n + 2)
  {
    RunIs(Not(GT), s, i + 1, n);
    TagMatch(s, i);
  }

  /** The `&nbsp;` pass over `x + y` with no `&` in `x`: `x` kept, `y` on its own. */
  lemma NbspPassAfter(x: JsStr, y: JsStr)
    requires AMP !in x
    ensures Replace(NbspPattern, Const([SPACE]), x + y) == x + Replace(NbspPattern, Const([SPACE]), y)
  {
    var t := x + y;
    forall k | 0 <= k < |x|
      ensures t[k] != AMP
    {
      assert t[k] == x[k];
    }
    NbspSkipTo(t, |x|);
    assert t[..|x|] == x;
    TagPassSuffix(x, y);
  }

  /** The tag pass over `x + y` with no `<` in `x`: `x` kept, `y` on its own. */
  lemma TagPassAfter(x: JsStr, y: JsStr)
    requires LT !in x
    ensures Replace(TagPattern, Const([SPACE]), x + y) == x + Replace(TagPattern, Const([SPACE]), y)
  {
    var t := x + y;
    assert TagPattern[0] == Atom(One(Is(LT)));
    forall k | 0 <= k < |x|
      ensures Match(TagPattern, t, k).None?
    {
      assert t[k] == x[k];
      if Match(TagPattern, t, k).Some? {
        MatchStartsWith(TagPattern, Is(LT), t, k);
      }
    }
    ReplaceSkipTo(TagPattern, Const([SPACE]), t, 0, |x|);
    assert t[0..|x|] == x;
    TagPassSuffix(x, y);
  }

  /**
   * `stripTags` replaces `&nbsp;`, in any letter case, by one space: with no
   * `<` and no `&` before it, the text before it is kept and the rest is
   * stripped as if it stood alone.
   */
  lemma NbspBecomesSpace(a: JsStr, w: JsStr, b: JsStr)
    requires LT !in a && AMP !in a
    requires |w| == 6 && AtFold(w, 0, Lit("&nbsp;"))
    ensures StripTags(a + w + b) == a + [SPACE] + StripTags(b)
  {
    var tb := Replace(TagPattern, Const([SPACE]), b);
    NbspUnits(a, w, tb);
    TagPassAfter(a + w, b);
    NbspPassAt(a + w + tb, |a|, |a + w|);
    TagPassSuffix(a + w, tb);
  }

  /** `&nbsp;` in any case holds no `<`, and after `a` it stands at `|a|` of `a + w + t`. */
  lemma NbspUnits(a: JsStr, w: JsStr, t: JsStr)
    requires AMP !in a
    requires |w| == 6 && AtFold(w, 0, Lit("&nbsp;"))
    ensures LT !in a ==> LT !in a + w
    ensures var s := a + w + t;
      && |a + w| == |a| + 6 <= |s| && s[..|a|] == a && AtFold(s, |a|, Lit("&nbsp;"))
      && forall k :: 0 <= k < |a| ==> s[k] != AMP
  {
    var s := a + w + t;
    forall j | 0 <= j < 6
      ensures EqFold(s[|a| + j], Lit("&nbsp;")[j]) && w[j] != LT
    {
      assert s[|a| + j] == w[j];
      assert EqFold(w[j], Lit("&nbsp;")[j]);
    }
    forall k | 0 <= k < |a|
      ensures s[k] != AMP
    {
      assert s[k] == a[k];
    }
  }

  /** The `&nbsp;` pass over text with no `&` before an `&nbsp;` at `i`: the text before kept, the entity one space. */
  lemma NbspPassAt(t: JsStr, i: nat, e: nat)
    requires e == i + 6 <= |t| && AtFold(t, i, Lit("&nbsp;"))
    requires forall k :: 0 <= k < i ==> t[k] != AMP
    ensures Replace(NbspPattern, Const([SPACE]), t) == t[..i] + [SPACE] + ReplaceFrom(NbspPattern, Const([SPACE]), t, e)
  {
    NbspSkipTo(t, i);
    assert Word(Lit("&nbsp;"), true) + [] == NbspPattern;
    WordThen(Lit("&nbsp;"), true, [], t, i);
    ReplaceFirstMatch(NbspPattern, Const([SPACE]), t, i, i, e);
    assert t[i..i] == [];
  }

  /* ---------- decodeEntities ---------- */

  /** `/&#(\d+);/g`. */
  const DecimalEntity: Pattern :=
    [Atom(One(Is(AMP))), Atom(One(Is(U('#')))), Atom(Greedy(Digit, 1)), Atom(One(Is(SEMI)))]

  /** `/&#x([0-9a-f]+);/gi`. */
  const HexEntity: Pattern :=
    [Atom(One(Is(AMP))), Atom(One(Is(U('#')))), Atom(One(Fold(U('x')))), Atom(Greedy(HexDigit, 1)), Atom(One(Is(SEMI)))]

  /**
   * `String.fromCharCode(n)` for the digits of `&#n;`: the exact value of
   * the digits taken modulo 2^16. JavaScript first turns the digits into a
   * double, so the two differ for values of 2^53 and more.
   */
  function FromDecimalEntity(m: JsStr): JsStr
  {
    if |m| >= 4 then [DecimalValue(m[2..|m| - 1]) % 0x1_0000] else m
  }

  /** `String.fromCharCode(parseInt(n, 16))` for the digits of `&#xn;`, exact value modulo 2^16 as above. */
  function FromHexEntity(m: JsStr): JsStr
  {
    if |m| >= 5 then [HexValue(m[3..|m| - 1]) % 0x1_0000] else m
  }

  /** The five named entities, replaced in this order, case-sensitively. */
  const NamedEntities: seq<(JsStr, Unit)> := [
    (Lit("&amp;"), AMP), (Lit("&lt;"), LT), (Lit("&gt;"), GT), (Lit("&quot;"), QUOTE), (Lit("&apos;"), APOS)
  ]

  /** The named-entity replacements from the `k`-th on, applied in order. */
  function DecodeNamed(s: JsStr, k: nat): (r: JsStr)
    requires k <= |NamedEntities|
    ensures |r| <= |s|
    ensures AMP !in s ==> r == s
    decreases |NamedEntities| - k
  {
    if k == |NamedEntities| then s
    else
      var (name, unit) := NamedEntities[k];
      var p := Word(name, false);
      ReplaceNeverLonger(p, Const([unit]), s, 0);
      AbsentFirstUnit(p, Const([unit]), AMP, s);
      DecodeNamed(Replace(p, Const([unit]), s), k + 1)
  }

  /**
   * `decodeEntities`: seven replacements one after another, so the output
   * of one can feed the next (`&amp;lt;` decodes to `<`). It never
   * lengthens the text, and text with no `&` comes back unchanged.
   */
  function DecodeEntities(s: JsStr): (r: JsStr)
    ensures |r| <= |s|
    ensures AMP !in s ==> r == s
  {
    var a := Replace(DecimalEntity, FromDecimalEntity, s);
    var b := Replace(HexEntity, FromHexEntity, a);
    EntityPassesNeverLonger(s, a);
    AbsentFirstUnit(DecimalEntity, FromDecimalEntity, AMP, s);
    AbsentFirstUnit(HexEntity, FromHexEntity, AMP, a);
    DecodeNamed(b, 0)
  }

  /** The numeric-entity patterns only match where `&` is followed by `#`. */
  lemma NumericPassesNeedHash(s: JsStr)
    requires forall k :: 0 <= k < |s| - 1 && s[k] == AMP ==> s[k + 1] != U('#')
    ensures Replace(DecimalEntity, FromDecimalEntity, s) == s
    ensures Replace(HexEntity, FromHexEntity, s) == s
  {
    forall k | 0 <= k <= |s|
      ensures Match(DecimalEntity, s, k).None? && Match(HexEntity, s, k).None?
    {
      if k < |s| && s[k] == AMP {
        assert Match(DecimalEntity, s, k) == Match(DecimalEntity[1..], s, k + 1);
        assert Match(HexEntity, s, k) == Match(HexEntity[1..], s, k + 1);
        if Match(DecimalEntity[1..], s, k + 1).Some? {
          MatchStartsWith(DecimalEntity[1..], Is(U('#')), s, k + 1);
        }
        if Match(HexEntity[1..], s, k + 1).Some? {
          MatchStartsWith(HexEntity[1..], Is(U('#')), s, k + 1);
        }
      }
    }
    ReplaceNoMatch(DecimalEntity, FromDecimalEntity, s, 0);
    ReplaceNoMatch(HexEntity, FromHexEntity, s, 0);
  }

  /** The replacements run one after another: `&amp;lt;` becomes `&lt;` and then `<`. */
  lemma AmpLtDecodesToLt()
    ensures DecodeEntities(Lit("&amp;lt;")) == [LT]
  {
    var s := Lit("&amp;lt;");
    NumericPassesNeedHash(s);
    AmpStep();
    LtStep();
  }

  /** One step of the named-entity chain: the `k`-th entity is `name`, standing for `unit`. */
  lemma DecodeNamedStep(s: JsStr, k: nat, name: JsStr, unit: Unit)
    requires k < |NamedEntities| && NamedEntities[k] == (name, unit)
    ensures DecodeNamed(s, k) == DecodeNamed(Replace(Word(name, false), Const([unit]), s), k + 1)
  {
  }

  lemma AmpStep()
    ensures DecodeNamed(Lit("&amp;lt;"), 0) == DecodeNamed(Lit("&lt;"), 1)
  {
    FirstTwoEntities();
    DecodeNamedStep(Lit("&amp;lt;"), 0, Lit("&amp;"), AMP);
    AmpReplaced();
  }

  lemma LtStep()
    ensures DecodeNamed(Lit("&lt;"), 1) == [LT]
  {
    FirstTwoEntities();
    DecodeNamedStep(Lit("&lt;"), 1, Lit("&lt;"), LT);
    LtReplaced();
    NoAmpLeft([LT], 2);
  }

  /** Text without `&` passes the remaining named-entity replacements unchanged. */
  lemma NoAmpLeft(s: JsStr, k: nat)
    requires k <= |NamedEntities| && forall i :: 0 <= i < |s| ==> s[i] != AMP
    ensures DecodeNamed(s, k) == s
  {
  }

  /** `&amp;` and `&lt;` are the first two entities decoded. */
  lemma FirstTwoEntities()
    ensures NamedEntities[0] == (Lit("&amp;"), AMP) && NamedEntities[1] == (Lit("&lt;"), LT)
  {
  }

  /** In `&amp;lt;` the `&amp;` pass replaces the leading `&amp;` only. */
  lemma AmpReplaced()
    ensures Replace(Word(Lit("&amp;"), false), Const([AMP]), Lit("&amp;lt;")) == Lit("&lt;")
  {
    var s := Lit("&amp;lt;");
    var w := Lit("&amp;");
    assert s[1] == U('a') && s[2] == U('m') && s[3] == U('p') && s[4] == U(';');
    assert s[5] == U('l') && s[6] == U('t') && s[7] == U(';');
    assert forall j :: 0 <= j < |w| ==> s[0 + j] == w[j];
    assert forall k :: 0 <= k < |s| && k != 0 ==> s[k] != AMP;
    LiteralOnlyAt(w, s, 0);
    ReplaceSingleMatch(Word(w, false), [AMP], s, 0, 5);
    AmpSplice();
  }

  /** `&` followed by what comes after `&amp;` in `&amp;lt;` is `&lt;`. */
  lemma AmpSplice()
    ensures Lit("&amp;lt;")[..0] + [AMP] + Lit("&amp;lt;")[5..] == Lit("&lt;")
  {
    var s, t := Lit("&amp;lt;"), Lit("&lt;");
    assert s[5] == U('l') && s[6] == U('t') && s[7] == U(';');
    assert t[1] == U('l') && t[2] == U('t') && t[3] == U(';');
    assert s[..0] + [AMP] + s[5..] == [AMP, s[5], s[6], s[7]];
  }

  /** In `&lt;` the `&lt;` pass leaves a single `<`. */
  lemma LtReplaced()
    ensures Replace(Word(Lit("&lt;"), false), Const([LT]), Lit("&lt;")) == [LT]
  {
    var s := Lit("&lt;");
    assert s[1] == U('l') && s[2] == U('t') && s[3] == U(';');
    assert forall k :: 0 <= k < |s| && k != 0 ==> s[k] != AMP;
    LiteralOnlyAt(s, s, 0);
    ReplaceSingleMatch(Word(s, false), [LT], s, 0, 4);
    assert s[..0] + [LT] + s[4..] == [LT];
  }

  lemma EntityPassesNeverLonger(s: JsStr, a: JsStr)
    ensures |Replace(DecimalEntity, FromDecimalEntity, s)| <= |s|
    ensures |Replace(HexEntity, FromHexEntity, a)| <= |a|
  {
    MinLenOfUnitPieces(DecimalEntity);
    MinLenOfUnitPieces(HexEntity);
    ReplaceNeverLonger(DecimalEntity, FromDecimalEntity, s, 0);
    ReplaceNeverLonger(HexEntity, FromHexEntity, a, 0);
  }
}

module CleanText {
  import opened Wrappers
  import opened JsText
  import opened Regex
  import opened TextClean

  /* ---------- cleanExtractedText ---------- */

  predicate IsBlank(u: Unit) { u == SPACE || u == TAB }

  /** No space or tab stands next to another space or tab. */
  predicate NoAdjacentBlanks(s: JsStr)
  {
    forall i :: 0 <= i < |s| - 1 ==> !(IsBlank(s[i]) && IsBlank(s[i + 1]))
  }

  /** No line (a stretch between line feeds) begins or ends with white space. */
  predicate LinesTrimmed(s: JsStr)
  {
    forall i :: 0 <= i < |s| && s[i] != NL && IsSpace(s[i]) ==>
      0 < i && s[i - 1] != NL && i + 1 < |s| && s[i + 1] != NL
  }

  /** `/[ \t]+/g`. */
  const BlankRun: Pattern := [Atom(Greedy(Among([SPACE, TAB]), 1))]

  /** `/\n\s*\n\s*\n/g`: a white-space stretch holding at least three line feeds, from the first to the last. */
  const NewlineRun: Pattern :=
    [Atom(One(Is(NL))), Atom(Greedy(Space, 0)), Atom(One(Is(NL))), Atom(Greedy(Space, 0)), Atom(One(Is(NL)))]

  const TruncatedMarker: JsStr := Lit("\n\n[Text truncated]")

  /** `text.split('\n').map(l => l.trim()).join('\n')`. */
  function TrimLines(s: JsStr): (r: JsStr)
    ensures LinesTrimmed(r)
    ensures NoAdjacentBlanks(s) ==> NoAdjacentBlanks(r)
    decreases |s|
  {
    match IndexOfUnit(s, NL, 0)
    case None =>
      TrimmedLine(s);
      Trim(s)
    case Some(k) =>
      TrimmedLine(s[..k]);
      var rest := TrimLines(s[k + 1..]);
      LinesJoin(Trim(s[..k]), rest);
      SplitKeepsBlanksApart(s, k);
      Trim(s[..k]) + [NL] + rest
  }

  lemma SplitKeepsBlanksApart(s: JsStr, k: nat)
    requires k < |s|
    ensures NoAdjacentBlanks(s) ==> NoAdjacentBlanks(s[..k]) && NoAdjacentBlanks(s[k + 1..])
  {
    if NoAdjacentBlanks(s) {
      NoAdjacentInfix(s, 0, k);
      NoAdjacentInfix(s, k + 1, |s|);
      assert s[0..k] == s[..k] && s[k + 1..|s|] == s[k + 1..];
    }
  }

  /** A stretch of a text without adjacent blanks has none either. */
  lemma NoAdjacentInfix(s: JsStr, a: nat, b: nat)
    requires a <= b <= |s| && NoAdjacentBlanks(s)
    ensures NoAdjacentBlanks(s[a..b])
  {
    forall i | 0 <= i < b - a - 1
      ensures !(IsBlank(s[a..b][i]) && IsBlank(s[a..b][i + 1]))
    {
      assert s[a..b][i] == s[a + i] && s[a..b][i + 1] == s[a + i + 1];
    }
  }

  /** The trim of one line, free of line feeds, is a trimmed line and keeps blanks apart. */
  lemma TrimmedLine(x: JsStr)
    requires NL !in x
    ensures LinesTrimmed(Trim(x)) && NL !in Trim(x)
    ensures NoAdjacentBlanks(x) ==> NoAdjacentBlanks(Trim(x))
  {
    var t := Trim(x);
    var n := |x| - |TrimStart(x)|;
    TrimShape(x);
    forall i | 0 <= i < |t|
      ensures t[i] == x[n + i]
    {
    }
    if NoAdjacentBlanks(x) {
      NoAdjacentInfix(x, n, n + |t|);
    }
  }

  /** Joining a trimmed line and trimmed lines with a line feed gives trimmed lines. */
  lemma LinesJoin(a: JsStr, b: JsStr)
    requires LinesTrimmed(a) && NL !in a && NoTrailingSpace(a) && LinesTrimmed(b)
    ensures LinesTrimmed(a + [NL] + b)
    ensures NoAdjacentBlanks(a) && NoAdjacentBlanks(b) ==> NoAdjacentBlanks(a + [NL] + b)
  {
    var s := a + [NL] + b;
    forall i | 0 <= i < |s| && s[i] != NL && IsSpace(s[i])
      ensures 0 < i && s[i - 1] != NL && i + 1 < |s| && s[i + 1] != NL
    {
      if i < |a| {
        assert s[i] == a[i];
        assert i + 1 < |a|;
      } else {
        var j := i - |a| - 1;
        assert s[i] == b[j];
      }
    }
  }

  /** Trimming a whole text keeps its lines trimmed and its blanks apart. */
  lemma TrimKeepsShape(s: JsStr)
    ensures LinesTrimmed(s) ==> LinesTrimmed(Trim(s))
    ensures NoAdjacentBlanks(s) ==> NoAdjacentBlanks(Trim(s))
  {
    var t := Trim(s);
    var n := |s| - |TrimStart(s)|;
    TrimShape(s);
    forall i | 0 <= i < |t|
      ensures t[i] == s[n + i]
    {
    }
    if LinesTrimmed(s) {
      forall i | 0 <= i < |t| && t[i] != NL && IsSpace(t[i])
        ensures 0 < i && t[i - 1] != NL && i + 1 < |t| && t[i + 1] != NL
      {
        assert s[n + i] != NL && IsSpace(s[n + i]);
      }
    }
    if NoAdjacentBlanks(s) {
      NoAdjacentInfix(s, n, n + |t|);
    }
  }

  /** `[ \t]+` at `i` takes the whole run of blanks there. */
  lemma BlankRunMatch(s: JsStr, i: nat)
    requires i <= |s|
    ensures Match(BlankRun, s, i) ==
      (if Run(Among([SPACE, TAB]), s, i) >= 1 then Some(i + Run(Among([SPACE, TAB]), s, i)) else None)
  {
    var n := Run(Among([SPACE, TAB]), s, i);
    assert BlankRun[1..] == [];
    assert Match(BlankRun, s, i) == Back([], s, i, n, 1);
    if n >= 1 {
      assert Match([], s, i + n) == Some(i + n);
    }
  }

  /** After `[ \t]+` became one space, no two blanks are adjacent. */
  lemma {:induction false} BlankRunSeparates(s: JsStr, i: nat)
    requires i <= |s|
    ensures NoAdjacentBlanks(ReplaceFrom(BlankRun, Const([SPACE]), s, i))
    ensures var out := ReplaceFrom(BlankRun, Const([SPACE]), s, i);
      |out| > 0 && IsBlank(out[0]) ==> i < |s| && IsBlank(s[i])
    decreases |s| - i
  {
    var out := ReplaceFrom(BlankRun, Const([SPACE]), s, i);
    BlankRunMatch(s, i);
    var n := Run(Among([SPACE, TAB]), s, i);
    if n >= 1 {
      var j := i + n;
      BlankRunSeparates(s, j);
      var rest := ReplaceFrom(BlankRun, Const([SPACE]), s, j);
      assert out == [SPACE] + rest;
      assert j == |s| || !IsBlank(s[j]);
      NoAdjacentConcat([SPACE], rest);
    } else if i < |s| {
      BlankRunSeparates(s, i + 1);
      var rest := ReplaceFrom(BlankRun, Const([SPACE]), s, i + 1);
      assert out == [s[i]] + rest;
      assert !IsBlank(s[i]);
      NoAdjacentConcat([s[i]], rest);
    }
  }

  lemma NoAdjacentConcat(a: JsStr, b: JsStr)
    requires NoAdjacentBlanks(a) && NoAdjacentBlanks(b)
    requires |a| > 0 && |b| > 0 ==> !(IsBlank(a[|a| - 1]) && IsBlank(b[0]))
    ensures NoAdjacentBlanks(a + b)
  {
    var s := a + b;
    forall i | 0 <= i < |s| - 1
      ensures !(IsBlank(s[i]) && IsBlank(s[i + 1]))
    {
      if i + 1 < |a| {
        assert s[i] == a[i] && s[i + 1] == a[i + 1];
      } else if i >= |a| {
        assert s[i] == b[i - |a|] && s[i + 1] == b[i - |a| + 1];
      }
    }
  }

  /**
   * Replacing matches by text that holds no blank keeps blanks apart; the
   * output starts with a blank only where the input does.
   */
  lemma {:induction false} ReplaceKeepsBlanksApart(p: Pattern, r: JsStr, s: JsStr, i: nat)
    requires i <= |s| && MinLen(p) >= 1 && NoAdjacentBlanks(s)
    requires |r| > 0 && forall k :: 0 <= k < |r| ==> !IsBlank(r[k])
    ensures NoAdjacentBlanks(ReplaceFrom(p, Const(r), s, i))
    ensures var out := ReplaceFrom(p, Const(r), s, i);
      |out| > 0 && IsBlank(out[0]) ==> i < |s| && out[0] == s[i]
    decreases |s| - i
  {
    var out := ReplaceFrom(p, Const(r), s, i);
    match Match(p, s, i)
    case Some(j) =>
      ReplaceKeepsBlanksApart(p, r, s, j);
      var rest := ReplaceFrom(p, Const(r), s, j);
      assert out == r + rest;
      assert NoAdjacentBlanks(r);
      NoAdjacentConcat(r, rest);
    case None =>
      if i < |s| {
        ReplaceKeepsBlanksApart(p, r, s, i + 1);
        var rest := ReplaceFrom(p, Const(r), s, i + 1);
        assert out == [s[i]] + rest;
        if |rest| > 0 && IsBlank(rest[0]) {
          assert rest[0] == s[i + 1];
        }
        NoAdjacentConcat([s[i]], rest);
      }
  }

  /**
   * The first five steps of `cleanExtractedText`: decode entities, make
   * each run of spaces and tabs one space, shrink each blank stretch with
   * three or more line feeds to two line feeds, trim every line, trim the
   * whole. The result has no white space at either end, no line begins or
   * ends with white space, and no two spaces or tabs are adjacent.
   */
  function Normalize(text: JsStr): (r: JsStr)
    ensures NoLeadingSpace(r) && NoTrailingSpace(r)
    ensures LinesTrimmed(r)
    ensures NoAdjacentBlanks(r)
  {
    var decoded := DecodeEntities(text);
    var spaced := Replace(BlankRun, Const([SPACE]), decoded);
    var collapsed := Replace(NewlineRun, Const([NL, NL]), spaced);
    assert NoAdjacentBlanks(collapsed) by {
      CollapseKeepsBlanksApart(decoded);
    }
    var lines := TrimLines(collapsed);
    TrimKeepsShape(lines);
    Trim(lines)
  }

  /** After the blank runs and then the newline runs are replaced, no two spaces or tabs are adjacent. */
  lemma CollapseKeepsBlanksApart(decoded: JsStr)
    ensures NoAdjacentBlanks(Replace(NewlineRun, Const([NL, NL]), Replace(BlankRun, Const([SPACE]), decoded)))
  {
    var spaced := Replace(BlankRun, Const([SPACE]), decoded);
    BlankRunSeparates(decoded, 0);
    MinLenOfUnitPieces(NewlineRun[..1]);
    assert MinLen(NewlineRun) >= 1 by {
      assert NewlineRun[0] == Atom(One(Is(NL)));
    }
    ReplaceKeepsBlanksApart(NewlineRun, [NL, NL], spaced, 0);
  }

  /**
   * `cleanExtractedText`: the normalised text, cut to its first 50000 units
   * followed by "\n\n[Text truncated]" when it is longer. The cut keeps
   * spaces and tabs apart, and the result is never longer than 50018 units.
   */
  function CleanExtractedText(text: JsStr): (r: JsStr)
    ensures |Normalize(text)| <= MaxTextLength ==> r == Normalize(text)
    ensures |Normalize(text)| > MaxTextLength ==> r == Normalize(text)[..MaxTextLength] + TruncatedMarker
    ensures |r| <= MaxTextLength + 18
    ensures NoAdjacentBlanks(r)
  {
    var n := Normalize(text);
    CapKeepsBlanksApart(n);
    Capped(n, TruncatedMarker)
  }

  lemma CapKeepsBlanksApart(n: JsStr)
    requires NoAdjacentBlanks(n)
    ensures NoAdjacentBlanks(Capped(n, TruncatedMarker))
  {
    assert |TruncatedMarker| == 18 && TruncatedMarker[0] == NL;
    if |n| > MaxTextLength {
      NoAdjacentInfix(n, 0, MaxTextLength);
      assert n[..MaxTextLength] == n[0..MaxTextLength];
      NoAdjacentConcat(n[..MaxTextLength], TruncatedMarker);
    }
  }
}
