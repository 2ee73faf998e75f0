/**
 * `sanitizeInput`: before the article is embedded in the instructions,
 * nine global, case-insensitive replacements run one after another. The
 * first three delete `<system>`, `<user>` and `<assistant>` tags, opening
 * or closing; the other six replace common prompt-injection phrases with
 * `[REMOVED]`. Each runs once over the output of the one before.
 */
module Sanitize {
  import opened Wrappers
  import opened JsText
  import opened Regex
  import opened TextClean

  /** The elements matching `w` unit by unit, ASCII case ignored, for use inside an optional group. */
  function FoldElems(w: JsStr): (es: seq<Elem>)
    ensures |es| == |w|
  {
    seq(|w|, k requires 0 <= k < |w| => One(Fold(w[k])))
  }

  /** `/<\/?name>/gi`. */
  function TagOf(name: JsStr): Pattern
  {
    [Atom(One(Is(LT))), Optional([One(Is(SLASH))])] + Word(name, true) + [Atom(One(Is(GT)))]
  }

  const Spaces: Piece := Atom(Greedy(Space, 1))
  const Boundary: Piece := Atom(WordBoundary)

  /** `(w\s+)?`. */
  function OptionalWord(w: JsStr): Piece
  {
    Optional(FoldElems(w) + [Greedy(Space, 1)])
  }

  /** `\b`, the word `w` in any case, then `rest`: the shape of every phrase pattern. */
  function Phrase(w: JsStr, rest: Pattern): Pattern
  {
    [Boundary] + Word(w, true) + rest
  }

  /** What follows `ignore` in `/\bignore\s+(all\s+)?previous\s+instructions?\b/gi`. */
  const AfterIgnore: Pattern :=
    [Spaces, OptionalWord(Lit("all"))] + Word(Lit("previous"), true)
      + [Spaces] + Word(Lit("instruction"), true) + [Optional([One(Fold(U('s')))]), Boundary]

  /** What follows `you` in `/\byou\s+are\s+now\b/gi`. */
  const AfterYou: Pattern :=
    [Spaces] + Word(Lit("are"), true) + [Spaces] + Word(Lit("now"), true) + [Boundary]

  /** What follows `act` in `/\bact\s+as\b/gi`. */
  function AfterAct(): Pattern
  {
    [Spaces] + Word(Lit("as"), true) + [Boundary]
  }

  /** What follows `forget` in `/\bforget\s+(all\s+)?(your\s+)?instructions?\b/gi`. */
  const AfterForget: Pattern :=
    [Spaces, OptionalWord(Lit("all")), OptionalWord(Lit("your"))]
      + Word(Lit("instruction"), true) + [Optional([One(Fold(U('s')))]), Boundary]

  /** What follows `system` and `prompt` in `\bsystem\s*:\s*` and `\bprompt\s*:\s*`, global and ignoring case. */
  const AfterLabel: Pattern := [Atom(Greedy(Space, 0)), Atom(One(Is(U(':')))), Atom(Greedy(Space, 0))]

  /** `/\bact\s+as\b/gi`. */
  const ActAs: Pattern := Phrase(Lit("act"), AfterAct())

  const Removed: JsStr := Lit("[REMOVED]")

  const ReplacementCount: nat := 9

  /** The name the `j`-th tag pass deletes. */
  function TagName(j: nat): JsStr
    requires j < 3
  {
    if j == 0 then Lit("system") else if j == 1 then Lit("user") else Lit("assistant")
  }

  /** The word the `j`-th phrase pattern starts with. */
  function PhraseWord(j: nat): JsStr
    requires 3 <= j < ReplacementCount
  {
    if j == 3 then Lit("ignore") else if j == 4 then Lit("you") else if j == 5 then Lit("act")
    else if j == 6 then Lit("forget") else if j == 7 then Lit("system") else Lit("prompt")
  }

  /** What the `j`-th phrase pattern asks for after its word. */
  function PhraseRest(j: nat): Pattern
    requires 3 <= j < ReplacementCount
  {
    if j == 3 then AfterIgnore else if j == 4 then AfterYou else if j == 5 then AfterAct()
    else if j == 6 then AfterForget else AfterLabel
  }

  /**
   * The `k`-th of the nine replacements, in the order they run: a pattern
   * and the text each match becomes. The first three delete a tag; the
   * other six turn a phrase into `[REMOVED]`.
   */
  function Replacement(k: nat): (Pattern, JsStr)
    requires k < ReplacementCount
  {
    if k < 3 then (TagOf(TagName(k)), []) else (Phrase(PhraseWord(k), PhraseRest(k)), Removed)
  }

  /** A replacement pass: a pattern and the text each of its matches becomes. */
  type Pass = (Pattern, JsStr)

  /** The passes run one after another, each over the output of the one before. */
  function Chain(ps: seq<Pass>, s: JsStr): JsStr
    decreases |ps|
  {
    if |ps| == 0 then s else Chain(ps[1..], Replace(ps[0].0, Const(ps[0].1), s))
  }

  /** The nine replacements, in the order `sanitizeInput` runs them. */
  function Passes(): (ps: seq<Pass>)
    ensures |ps| == ReplacementCount
    ensures forall k :: 0 <= k < ReplacementCount ==> ps[k] == Replacement(k)
  {
    seq(ReplacementCount, k requires 0 <= k < ReplacementCount => Replacement(k))
  }

  /** `sanitizeInput(text)`. */
  function SanitizeInput(text: JsStr): JsStr
  {
    Chain(Passes(), text)
  }

  /** `p` matches nowhere in `s`. */
  predicate NoMatchIn(p: Pattern, s: JsStr)
  {
    forall i :: 0 <= i <= |s| ==> Match(p, s, i).None?
  }

  /** No pass of `ps` matches anywhere in `s`. */
  predicate CleanFor(ps: seq<Pass>, s: JsStr)
  {
    forall q :: 0 <= q < |ps| ==> NoMatchIn(ps[q].0, s)
  }

  /** Passes that match nowhere leave the text as it is. */
  lemma {:induction false} CleanUnchanged(ps: seq<Pass>, s: JsStr)
    requires CleanFor(ps, s)
    ensures Chain(ps, s) == s
    decreases |ps|
  {
    if |ps| > 0 {
      ReplaceNoMatch(ps[0].0, Const(ps[0].1), s, 0);
      CleanTail(ps, s);
      CleanUnchanged(ps[1..], s);
    }
  }

  /** What holds of all the passes holds of those after the first. */
  lemma CleanTail(ps: seq<Pass>, s: JsStr)
    requires |ps| > 0 && CleanFor(ps, s)
    ensures CleanFor(ps[1..], s)
  {
    forall q | 0 <= q < |ps| - 1
      ensures NoMatchIn(ps[1..][q].0, s)
    {
      assert ps[1..][q] == ps[q + 1];
    }
  }

  /**
   * When the passes before the `j`-th match nowhere, the `j`-th matches
   * only from `m` to `e`, and no later pass matches in what that leaves, the
   * chain rewrites that one stretch and nothing else.
   */
  lemma {:induction false} ChainRewrite(ps: seq<Pass>, j: nat, s: JsStr, m: nat, e: nat, t: JsStr)
    requires j < |ps| && CleanFor(ps[..j], s)
    requires m < e <= |s| && Match(ps[j].0, s, m) == Some(e) && OnlyMatchAt(ps[j].0, s, m)
    requires t == s[..m] + ps[j].1 + s[e..] && CleanFor(ps[j + 1..], t)
    ensures Chain(ps, s) == t
    decreases j
  {
    if j == 0 {
      ReplaceSingleMatch(ps[0].0, ps[0].1, s, m, e);
      CleanUnchanged(ps[1..], t);
    } else {
      assert NoMatchIn(ps[..j][0].0, s);
      ReplaceNoMatch(ps[0].0, Const(ps[0].1), s, 0);
      ChainShift(ps, j, s, t);
      ChainRewrite(ps[1..], j - 1, s, m, e, t);
    }
  }

  /** The conditions of `ChainRewrite` for the passes after the first. */
  lemma ChainShift(ps: seq<Pass>, j: nat, s: JsStr, t: JsStr)
    requires 0 < j < |ps| && CleanFor(ps[..j], s) && CleanFor(ps[j + 1..], t)
    ensures CleanFor(ps[1..][..j - 1], s) && CleanFor(ps[1..][j..], t)
    ensures ps[1..][j - 1] == ps[j]
  {
    assert ps[1..][..j - 1] == ps[..j][1..];
    CleanTail(ps[..j], s);
    assert ps[1..][j..] == ps[j + 1..];
  }

  /** Text in which none of the nine patterns occurs comes back unchanged. */
  lemma SanitizeUnchanged(text: JsStr)
    requires Clean(text, 0)
    ensures SanitizeInput(text) == text
  {
    CleanAfter(text, 0);
    assert Passes()[0..] == Passes();
    CleanUnchanged(Passes(), text);
  }

  /** No pattern from the `k`-th on matches anywhere in `s`. */
  predicate Clean(s: JsStr, k: nat)
    requires k <= ReplacementCount
  {
    forall j, i :: k <= j < ReplacementCount && 0 <= i <= |s| ==> Match(Replacement(j).0, s, i).None?
  }

  /** None of the passes from the `k`-th up to the `j`-th matches anywhere in `s`. */
  predicate CleanBetween(s: JsStr, k: nat, j: nat)
    requires k <= j <= ReplacementCount
  {
    forall q, i :: k <= q < j && 0 <= i <= |s| ==> Match(Replacement(q).0, s, i).None?
  }

  /** `CleanBetween` from the first pass, in the terms of `Chain`. */
  lemma CleanBefore(s: JsStr, j: nat)
    requires j <= ReplacementCount && CleanBetween(s, 0, j)
    ensures CleanFor(Passes()[..j], s)
  {
    forall q | 0 <= q < j
      ensures NoMatchIn(Passes()[..j][q].0, s)
    {
      assert Passes()[..j][q] == Replacement(q);
    }
  }

  /** `Clean` in the terms of `Chain`. */
  lemma CleanAfter(s: JsStr, k: nat)
    requires k <= ReplacementCount && Clean(s, k)
    ensures CleanFor(Passes()[k..], s)
  {
    forall q | 0 <= q < ReplacementCount - k
      ensures NoMatchIn(Passes()[k..][q].0, s)
    {
      assert Passes()[k..][q] == Replacement(k + q);
    }
  }

  /**
   * When the passes before the `j`-th match nowhere, the `j`-th matches only
   * from `m` to `e`, and no later pass matches in what that leaves, the
   * sanitised text is the text with that one stretch rewritten.
   */
  lemma SingleRewrite(s: JsStr, j: nat, m: nat, e: nat, t: JsStr)
    requires j < ReplacementCount && CleanBetween(s, 0, j)
    requires m < e <= |s| && Match(Replacement(j).0, s, m) == Some(e) && OnlyMatchAt(Replacement(j).0, s, m)
    requires t == s[..m] + Replacement(j).1 + s[e..] && Clean(t, j + 1)
    ensures SanitizeInput(s) == t
  {
    CleanBefore(s, j);
    CleanAfter(t, j + 1);
    assert Passes()[j] == Replacement(j);
    ChainRewrite(Passes(), j, s, m, e, t);
  }

  /** No ASCII letter and no `<`: text in which none of the nine patterns can start. */
  predicate Inert(x: JsStr)
  {
    forall k :: 0 <= k < |x| ==> !IsAsciiLetter(x[k]) && x[k] != LT
  }

  /** The first piece of a literal pattern. */
  lemma WordHead(w: JsStr, fold: bool)
    requires |w| > 0
    ensures Word(w, fold)[0] == Atom(One(if fold then Fold(w[0]) else Is(w[0])))
  {
  }

  /** The letter each phrase pattern needs, in either case, where its match starts. */
  function Initial(j: nat): Unit
    requires 3 <= j < ReplacementCount
  {
    if j == 3 then U('i') else if j == 4 then U('y') else if j == 5 then U('a')
    else if j == 6 then U('f') else if j == 7 then U('s') else U('p')
  }

  /** A phrase pattern matches only at a word boundary where its initial letter stands. */
  lemma PhraseStart(j: nat, s: JsStr, i: nat)
    requires 3 <= j < ReplacementCount && i <= |s|
    requires Match(Replacement(j).0, s, i).Some?
    ensures i < |s| && AtBoundary(s, i) && EqFold(s[i], Initial(j)) && IsAsciiLetter(s[i])
  {
    InitialOf(j);
    PhraseOpens(PhraseWord(j), PhraseRest(j), s, i);
  }

  /** A phrase pattern matches only at a word boundary where the first letter of its word stands, in either case. */
  lemma PhraseOpens(w: JsStr, rest: Pattern, s: JsStr, i: nat)
    requires |w| > 0 && i <= |s| && Match(Phrase(w, rest), s, i).Some?
    ensures i < |s| && AtBoundary(s, i) && EqFold(s[i], w[0])
  {
    PhraseHead(w, rest);
    BoundaryThenUnit(Phrase(w, rest), Fold(w[0]), s, i);
  }

  /** A pattern that opens with `\b` and a unit of class `c` matches only at a boundary before such a unit. */
  lemma BoundaryThenUnit(p: Pattern, c: Class, s: JsStr, i: nat)
    requires |p| >= 2 && p[0] == Boundary && p[1] == Atom(One(c)) && i <= |s|
    requires Match(p, s, i).Some?
    ensures i < |s| && AtBoundary(s, i) && Has(c, s[i])
  {
    assert Match(p, s, i) == Match(p[1..], s, i);
    MatchStartsWith(p[1..], c, s, i);
  }

  /** `Initial(j)` is the first letter of the `j`-th phrase word, and a lower-case letter. */
  lemma InitialOf(j: nat)
    requires 3 <= j < ReplacementCount
    ensures |PhraseWord(j)| > 0 && PhraseWord(j)[0] == Initial(j) && 97 <= Initial(j) <= 122
  {
  }

  /** A phrase pattern opens with `\b` and the first letter of its word. */
  lemma PhraseHead(w: JsStr, rest: Pattern)
    requires |w| > 0
    ensures |Phrase(w, rest)| >= 2 && Phrase(w, rest)[0] == Boundary && Phrase(w, rest)[1] == Atom(One(Fold(w[0])))
  {
    var q := Word(w, true);
    WordHead(w, true);
    assert Phrase(w, rest)[1] == q[0];
  }

  /** A tag pattern matches only where a `<` stands. */
  lemma TagStart(j: nat, s: JsStr, i: nat)
    requires j < 3 && i <= |s|
    requires Match(Replacement(j).0, s, i).Some?
    ensures i < |s| && s[i] == LT
  {
    var p := TagOf(TagName(j));
    assert p[0] == Atom(One(Is(LT)));
    MatchStartsWith(p, Is(LT), s, i);
  }

  /** Inert text is clean for every pass. */
  lemma InertClean(x: JsStr, k: nat)
    requires Inert(x) && k <= ReplacementCount
    ensures Clean(x, k)
  {
    forall j, i | k <= j < ReplacementCount && 0 <= i <= |x|
      ensures Match(Replacement(j).0, x, i).None?
    {
      if Match(Replacement(j).0, x, i).Some? {
        if j < 3 {
          TagStart(j, x, i);
        } else {
          PhraseStart(j, x, i);
        }
      }
    }
  }

  /* ---------- a phrase becomes [REMOVED] ---------- */

  /** `act`, a run of `n` white-space units and `as`, each letter in either case. */
  predicate ActAsPhrase(w: JsStr, n: nat)
  {
    n >= 1 && |w| == n + 5 && AtFold(w, 0, Lit("act")) && AtFold(w, n + 3, Lit("as"))
    && forall k :: 3 <= k < n + 3 ==> IsSpace(w[k])
  }

  /**
   * `sanitizeInput` turns an `act as` phrase into `[REMOVED]`: between
   * text with no letters and no `<`, and with no word unit right against
   * the phrase, the phrase is replaced and everything else is kept.
   */
  lemma ActAsRemoved(a: JsStr, w: JsStr, n: nat, b: JsStr)
    requires Inert(a) && Inert(b) && ActAsPhrase(w, n)
    requires |a| == 0 || !IsWordUnit(a[|a| - 1])
    requires |b| == 0 || !IsWordUnit(b[0])
    ensures SanitizeInput(a + w + b) == a + Removed + b
  {
    ActAsFacts(a, w, n, b);
    ActAsRewritten(a + w + b, |a|, n, |a| + |w|);
    Pieces(a, w, b);
  }

  /** The two ends of `a + w + b`. */
  lemma Pieces(a: JsStr, w: JsStr, b: JsStr)
    ensures (a + w + b)[..|a|] == a && (a + w + b)[|a| + |w|..] == b
  {
  }

  /** At `i` in `s`, an `act as` phrase with `n` white-space units in the middle, and no letter and no `<` outside it. */
  predicate ActAsIn(s: JsStr, i: nat, n: nat)
  {
    && ActAsAtIn(s, i, n) && i + n + 5 <= |s|
    && (forall k :: i + 3 <= k < i + 3 + n ==> IsSpace(s[k]))
    && forall k :: 0 <= k < |s| && (k < i || i + n + 5 <= k) ==> !IsAsciiLetter(s[k]) && s[k] != LT
  }

  /** The phrase between inert texts, in the terms of `ActAsIn`. */
  lemma ActAsFacts(a: JsStr, w: JsStr, n: nat, b: JsStr)
    requires Inert(a) && Inert(b) && ActAsPhrase(w, n)
    requires |a| == 0 || !IsWordUnit(a[|a| - 1])
    requires |b| == 0 || !IsWordUnit(b[0])
    ensures |w| == n + 5 && ActAsIn(a + w + b, |a|, n)
  {
    var s := a + w + b;
    ActAsShape(a, w, n, b);
    forall k | |a| + 3 <= k < |a| + 3 + n
      ensures IsSpace(s[k])
    {
      UnitOf(a, w, b, k);
    }
    forall k | 0 <= k < |s| && (k < |a| || |a| + n + 5 <= k)
      ensures !IsAsciiLetter(s[k]) && s[k] != LT
    {
      UnitOf(a, w, b, k);
    }
  }

  /** Within `ActAsIn`, no unit is `<`, and the only letters are those of `act` and `as`. */
  lemma ActAsUnit(s: JsStr, i: nat, n: nat, k: nat)
    requires ActAsIn(s, i, n) && k < |s|
    ensures s[k] != LT
    ensures IsAsciiLetter(s[k]) ==> k == i || k == i + 1 || k == i + 2 || k == i + 3 + n || k == i + 4 + n
    ensures k == i || k == i + 3 + n ==> EqFold(s[k], U('a'))
    ensures k == i + 1 ==> EqFold(s[k], U('c'))
    ensures k == i + 2 ==> EqFold(s[k], U('t'))
    ensures k == i + 4 + n ==> EqFold(s[k], U('s'))
  {
    if i <= k < i + 3 {
      assert EqFold(s[i + (k - i)], Lit("act")[k - i]);
    } else if i + 3 <= k < i + 3 + n {
      assert IsSpace(s[k]);
    } else if i + 3 + n <= k < i + 5 + n {
      assert EqFold(s[i + 3 + n + (k - i - 3 - n)], Lit("as")[k - i - 3 - n]);
    }
  }

  /** The `act as` pass is the sixth. */
  lemma ActAsIsSixth()
    ensures Replacement(5) == (ActAs, Removed)
  {
  }

  /** With the phrase at `i`, `sanitizeInput` replaces exactly the phrase. */
  lemma ActAsRewritten(s: JsStr, i: nat, n: nat, e: nat)
    requires ActAsIn(s, i, n) && e == i + n + 5
    ensures SanitizeInput(s) == s[..i] + Removed + s[e..]
  {
    ActAsIsSixth();
    ActAsEarlierPasses(s, i, n);
    ActAsOnlyMatch(s, i, n, e);
    ActAsOutsideInert(s, i, n, e);
    RemovedInert(s[..i], s[e..]);
    SingleRewrite(s, 5, i, e, s[..i] + Removed + s[e..]);
  }

  /** The text on either side of the phrase is inert. */
  lemma ActAsOutsideInert(s: JsStr, i: nat, n: nat, e: nat)
    requires ActAsIn(s, i, n) && e == i + n + 5
    ensures Inert(s[..i]) && Inert(s[e..])
  {
    forall k | 0 <= k < |s[e..]|
      ensures !IsAsciiLetter(s[e..][k]) && s[e..][k] != LT
    {
      assert s[e..][k] == s[e + k];
    }
  }

  /** The tag passes and the two phrase passes before `act as` match nowhere in the text. */
  lemma ActAsEarlierPasses(s: JsStr, i: nat, n: nat)
    requires ActAsIn(s, i, n)
    ensures CleanBetween(s, 0, 5)
  {
    forall q, k | 0 <= q < 5 && 0 <= k <= |s|
      ensures Match(Replacement(q).0, s, k).None?
    {
      if Match(Replacement(q).0, s, k).Some? {
        if q < 3 {
          TagStart(q, s, k);
        } else {
          PhraseStart(q, s, k);
        }
        ActAsUnit(s, i, n, k);
      }
    }
  }

  /** The `act as` pattern matches the phrase, taking all of it, and nowhere else. */
  lemma ActAsOnlyMatch(s: JsStr, i: nat, n: nat, e: nat)
    requires ActAsIn(s, i, n) && e == i + n + 5
    ensures Match(ActAs, s, i) == Some(e)
    ensures OnlyMatchAt(ActAs, s, i)
  {
    ActAsMatch(s, i, n);
    forall k | 0 <= k <= |s| && k != i
      ensures NoMatchAt(ActAs, s, k)
    {
      ActAsNowhereElse(s, i, n, k);
    }
  }

  /** Away from the start of the phrase the `act as` pattern does not match. */
  lemma ActAsNowhereElse(s: JsStr, i: nat, n: nat, k: nat)
    requires ActAsIn(s, i, n) && k <= |s| && k != i
    ensures Match(ActAs, s, k).None?
  {
    if Match(ActAs, s, k).Some? {
      ActAsIsSixth();
      PhraseStart(5, s, k);
      ActAsUnit(s, i, n, k);
      if k == i + 3 + n {
        ActAsNeedsAct(s, k);
      }
    }
  }

  /** Where a unit of `a + w + b` comes from. */
  lemma UnitOf(a: JsStr, w: JsStr, b: JsStr, i: nat)
    requires i < |a + w + b|
    ensures i < |a| ==> (a + w + b)[i] == a[i]
    ensures |a| <= i < |a| + |w| ==> (a + w + b)[i] == w[i - |a|]
    ensures |a| + |w| <= i ==> (a + w + b)[i] == b[i - |a| - |w|]
  {
  }
  /** The letters of an `act as` phrase are the five of `act` and `as`, and it holds no `<`. */
  lemma ActAsLetters(w: JsStr, n: nat, k: nat)
    requires ActAsPhrase(w, n) && k < |w|
    ensures w[k] != LT
    ensures IsAsciiLetter(w[k]) ==> k < 3 || k == n + 3 || k == n + 4
    ensures k == 0 || k == n + 3 ==> EqFold(w[k], U('a'))
    ensures k == 1 ==> EqFold(w[k], U('c'))
    ensures k == 2 ==> EqFold(w[k], U('t'))
    ensures k == n + 4 ==> EqFold(w[k], U('s'))
  {
    if k < 3 {
      assert EqFold(w[0 + k], Lit("act")[k]);
    } else if k < n + 3 {
      assert IsSpace(w[k]);
    } else {
      assert EqFold(w[n + 3 + (k - n - 3)], Lit("as")[k - n - 3]);
    }
  }
  /** The `act as` pattern matches only where `act` stands. */
  lemma ActAsNeedsAct(s: JsStr, k: nat)
    requires k <= |s| && Match(ActAs, s, k).Some?
    ensures AtFold(s, k, Lit("act"))
  {
    assert ActAs[0] == Boundary && ActAs[1..] == Word(Lit("act"), true) + AfterAct();
    assert Match(ActAs, s, k) == Match(ActAs[1..], s, k);
    WordThen(Lit("act"), true, AfterAct(), s, k);
  }
  /** The phrase inside `a + w + b`, in the terms `ActAsMatch` asks for. */
  lemma ActAsShape(a: JsStr, w: JsStr, n: nat, b: JsStr)
    requires ActAsPhrase(w, n)
    requires |a| == 0 || !IsWordUnit(a[|a| - 1])
    requires |b| == 0 || !IsWordUnit(b[0])
    ensures |w| == n + 5 && ActAsAtIn(a + w + b, |a|, n)
  {
    ActAsEdges(a, w, n, b);
    ActAsWords(a, w, n, b);
    ActAsRun(a, w, n, b);
  }

  /** `act` and `as` stand where the phrase puts them. */
  lemma ActAsWords(a: JsStr, w: JsStr, n: nat, b: JsStr)
    requires ActAsPhrase(w, n)
    ensures AtFold(a + w + b, |a|, Lit("act")) && AtFold(a + w + b, |a| + 3 + n, Lit("as"))
  {
    var s := a + w + b;
    var i := |a|;
    forall j | 0 <= j < 3
      ensures EqFold(s[i + j], Lit("act")[j])
    {
      UnitOf(a, w, b, i + j);
      assert EqFold(w[0 + j], Lit("act")[j]);
    }
    forall j | 0 <= j < 2
      ensures EqFold(s[i + 3 + n + j], Lit("as")[j])
    {
      UnitOf(a, w, b, i + 3 + n + j);
      assert EqFold(w[n + 3 + j], Lit("as")[j]);
    }
  }

  /** The white-space run after `act` is the phrase's. */
  lemma ActAsRun(a: JsStr, w: JsStr, n: nat, b: JsStr)
    requires ActAsPhrase(w, n)
    ensures n == Run(Space, a + w + b, |a| + 3)
  {
    var s := a + w + b;
    var i := |a|;
    forall j | i + 3 <= j < i + 3 + n
      ensures Has(Space, s[j])
    {
      UnitOf(a, w, b, j);
    }
    UnitOf(a, w, b, i + 3 + n);
    ActAsLetters(w, n, n + 3);
    RunIs(Space, s, i + 3, n);
  }

  /** The phrase starts and ends at word boundaries, and its white-space run ends where `as` starts. */
  lemma ActAsEdges(a: JsStr, w: JsStr, n: nat, b: JsStr)
    requires ActAsPhrase(w, n)
    requires |a| == 0 || !IsWordUnit(a[|a| - 1])
    requires |b| == 0 || !IsWordUnit(b[0])
    ensures AtBoundary(a + w + b, |a|) && AtBoundary(a + w + b, |a| + 5 + n)
    ensures !IsSpace((a + w + b)[|a| + 3 + n])
  {
    var s := a + w + b;
    var i := |a|;
    UnitOf(a, w, b, i);
    UnitOf(a, w, b, i + 3 + n);
    UnitOf(a, w, b, i + 4 + n);
    ActAsLetters(w, n, 0);
    ActAsLetters(w, n, n + 3);
    ActAsLetters(w, n, n + 4);
    if i > 0 {
      UnitOf(a, w, b, i - 1);
    }
    if i + 5 + n < |s| {
      UnitOf(a, w, b, i + 5 + n);
    }
  }

  /** `[REMOVED]` between inert texts leaves nothing for the three passes after `act as`. */
  lemma RemovedInert(a: JsStr, b: JsStr)
    requires Inert(a) && Inert(b)
    ensures Clean(a + Removed + b, 6)
  {
    var t := a + Removed + b;
    forall k | 0 <= k < |t| && !(|a| <= k < |a| + |Removed|)
      ensures !IsAsciiLetter(t[k]) && t[k] != LT
    {
      UnitOf(a, Removed, b, k);
    }
    assert t[|a|..|a| + |Removed|] == Removed;
    RemovedClean(t, |a|);
  }

  /** `[REMOVED]` at `m` in text that is otherwise inert. */
  predicate RemovedAt(t: JsStr, m: nat)
  {
    && m + |Removed| <= |t| && t[m..m + |Removed|] == Removed
    && forall k :: 0 <= k < |t| && !(m <= k < m + |Removed|) ==> !IsAsciiLetter(t[k]) && t[k] != LT
  }

  /** Text that is inert but for one `[REMOVED]` is clean for the passes after `act as`. */
  lemma RemovedClean(t: JsStr, m: nat)
    requires RemovedAt(t, m)
    ensures Clean(t, 6)
  {
    forall j, i | 6 <= j < ReplacementCount && 0 <= i <= |t|
      ensures Match(Replacement(j).0, t, i).None?
    {
      if i < |t| && m <= i < m + |Removed| {
        assert t[i] == Removed[i - m];
        RemovedLetters(i - m);
      }
      NotInitialNoMatch(j, t, i);
    }
  }

  /** A phrase pattern finds nothing where its initial letter does not stand. */
  lemma NotInitialNoMatch(j: nat, s: JsStr, i: nat)
    requires 3 <= j < ReplacementCount && i <= |s|
    requires i < |s| ==> !EqFold(s[i], Initial(j)) || !IsAsciiLetter(s[i])
    ensures Match(Replacement(j).0, s, i).None?
  {
    if Match(Replacement(j).0, s, i).Some? {
      PhraseStart(j, s, i);
    }
  }

  /** No unit of `[REMOVED]` is an `f`, `s` or `p` in either case. */
  lemma RemovedLetters(k: nat)
    requires k < |Removed|
    ensures !EqFold(Removed[k], U('f')) && !EqFold(Removed[k], U('s')) && !EqFold(Removed[k], U('p'))
  {
    assert Removed[k] == U("[REMOVED]"[k]);
    assert "[REMOVED]" == ['[', 'R', 'E', 'M', 'O', 'V', 'E', 'D', ']'];
  }

  /* ---------- the tag patterns ---------- */

  /** `</name>` at `i`, the name in any case. */
  predicate ClosingTagAt(s: JsStr, i: nat, name: JsStr)
  {
    i + 1 < |s| && s[i] == LT && s[i + 1] == SLASH && AtFold(s, i + 2, name)
    && i + 2 + |name| < |s| && s[i + 2 + |name|] == GT
  }

  /** `<name>` at `i`, the name in any case. */
  predicate OpeningTagAt(s: JsStr, i: nat, name: JsStr)
  {
    i < |s| && s[i] == LT && AtFold(s, i + 1, name) && i + 1 + |name| < |s| && s[i + 1 + |name|] == GT
  }

  /** The single `>` that ends a tag pattern. */
  lemma GtMatch(s: JsStr, j: nat)
    requires j <= |s|
    ensures Match([Atom(One(Is(GT)))], s, j) == if j < |s| && s[j] == GT then Some(j + 1) else None
  {
    var rest: Pattern := [Atom(One(Is(GT)))];
    if j < |s| && s[j] == GT {
      assert Match(rest, s, j) == Match(rest[1..], s, j + 1);
    }
  }

  /** The name and the `>` after it, at `k`. */
  lemma NameThenGt(name: JsStr, s: JsStr, k: nat)
    requires k <= |s|
    ensures Match(Word(name, true) + [Atom(One(Is(GT)))], s, k) ==
      if AtFold(s, k, name) && k + |name| < |s| && s[k + |name|] == GT then Some(k + |name| + 1) else None
  {
    WordThen(name, true, [Atom(One(Is(GT)))], s, k);
    if AtFold(s, k, name) {
      GtMatch(s, k + |name|);
    }
  }

  /**
   * The tag pattern matches exactly a closing tag, or failing that an
   * opening tag, of the given name in any letter case, and takes the whole tag.
   */
  lemma TagMatch(name: JsStr, s: JsStr, i: nat)
    requires i <= |s|
    ensures Match(TagOf(name), s, i) ==
      if ClosingTagAt(s, i, name) then Some(i + |name| + 3)
      else if OpeningTagAt(s, i, name) then Some(i + |name| + 2)
      else None
  {
    var p := TagOf(name);
    var tail := Word(name, true) + [Atom(One(Is(GT)))];
    assert p[0] == Atom(One(Is(LT)));
    if i < |s| && s[i] == LT {
      var q := p[1..];
      assert q == [Optional([One(Is(SLASH))])] + tail;
      assert Match(p, s, i) == Match(q, s, i + 1);
      assert Atoms([One(Is(SLASH))]) + q[1..] == [Atom(One(Is(SLASH)))] + tail;
      var slashed := [Atom(One(Is(SLASH)))] + tail;
      NameThenGt(name, s, i + 1);
      if i + 1 < |s| && s[i + 1] == SLASH {
        assert slashed[1..] == tail;
        assert Match(slashed, s, i + 1) == Match(tail, s, i + 2);
        NameThenGt(name, s, i + 2);
      } else {
        assert Match(slashed, s, i + 1) == None;
      }
    }
  }

  /**
   * Where the only `<` of the text opens a `name` tag, the tag pass deletes
   * that tag and leaves everything around it as it was.
   */
  lemma LoneTagDeleted(name: JsStr, s: JsStr, m: nat, e: nat)
    requires ClosingTagAt(s, m, name) || OpeningTagAt(s, m, name)
    requires e == if ClosingTagAt(s, m, name) then m + |name| + 3 else m + |name| + 2
    requires forall k :: 0 <= k < |s| && k != m ==> s[k] != LT
    ensures Replace(TagOf(name), Const([]), s) == s[..m] + s[e..]
  {
    var p := TagOf(name);
    assert p[0] == Atom(One(Is(LT)));
    TagMatch(name, s, m);
    forall k | 0 <= k <= |s| && k != m
      ensures NoMatchAt(p, s, k)
    {
      if Match(p, s, k).Some? {
        MatchStartsWith(p, Is(LT), s, k);
      }
    }
    ReplaceSingleMatch(p, [], s, m, e);
    assert s[..m] + [] + s[e..] == s[..m] + s[e..];
  }

  /* ---------- a tag is deleted ---------- */

  /** The three names start with letters that differ, in either case. */
  lemma TagNameFirst(j: nat, q: nat)
    requires j < 3 && q < 3
    ensures |TagName(j)| > 0 && IsAsciiLetter(Lower(TagName(j)[0]))
    ensures q != j ==> !EqFold(TagName(j)[0], TagName(q)[0])
  {
    assert Lit("system")[0] == U('s') && Lit("user")[0] == U('u') && Lit("assistant")[0] == U('a');
  }

  /** `<name>`, or `</name>` when `closing`, the name in any letter case. */
  predicate TagText(t: JsStr, name: JsStr, closing: bool)
  {
    var off := if closing then 2 else 1;
    |t| == off + |name| + 1 && t[0] == LT && (closing ==> t[1] == SLASH)
    && AtFold(t, off, name) && t[off + |name|] == GT
  }

  /**
   * `sanitizeInput` deletes a `<system>`, `<user>` or `<assistant>` tag,
   * opening or closing and in any letter case: between text with no letters
   * and no `<`, the tag goes and everything else is kept.
   */
  lemma TagRemoved(a: JsStr, t: JsStr, b: JsStr, j: nat, closing: bool)
    requires Inert(a) && Inert(b) && j < 3 && TagText(t, TagName(j), closing)
    ensures SanitizeInput(a + t + b) == a + b
  {
    TagShape(a, t, b, j, closing);
    TagRewritten(a + t + b, |a|, j, closing, |a| + |t|);
    Pieces(a, t, b);
  }

  /** The length of `<name>`, or of `</name>` when `closing`. */
  function TagLength(j: nat, closing: bool): nat
    requires j < 3
  {
    (if closing then 2 else 1) + |TagName(j)| + 1
  }

  /** At `m` in `s`, the tag of the `j`th name, closing or not. */
  predicate TagAtIn(s: JsStr, m: nat, j: nat, closing: bool)
  {
    && j < 3 && m + TagLength(j, closing) <= |s|
    && s[m] == LT && (closing ==> s[m + 1] == SLASH)
    && AtFold(s, m + (if closing then 2 else 1), TagName(j))
    && s[m + TagLength(j, closing) - 1] == GT
  }

  /** At `m` in `s`, the tag of the `j`th name, closing or not, and no letter and no `<` outside it. */
  predicate TagIn(s: JsStr, m: nat, j: nat, closing: bool)
  {
    && TagAtIn(s, m, j, closing)
    && (forall k :: 0 <= k < |s| && k != m ==> s[k] != LT)
    && (forall k :: 0 <= k < |s| && !(m <= k < m + TagLength(j, closing)) ==> !IsAsciiLetter(s[k]))
  }

  /** A tag of `j`th name in `s`, and nothing else any pass could find, is deleted by `sanitizeInput`. */
  lemma TagRewritten(s: JsStr, m: nat, j: nat, closing: bool, e: nat)
    requires TagIn(s, m, j, closing) && e == m + TagLength(j, closing)
    ensures SanitizeInput(s) == s[..m] + s[e..]
  {
    TagIsPass(j);
    TagMatchIn(s, m, j, closing);
    TagEarlierPasses(s, m, j, closing);
    TagOnlyMatch(s, m, j);
    TagOutsideInert(s, m, j, closing, e);
    InertClean(s[..m] + s[e..], j + 1);
    assert s[..m] + Replacement(j).1 == s[..m];
    SingleRewrite(s, j, m, e, s[..m] + s[e..]);
  }

  /** The first three passes delete the tags. */
  lemma TagIsPass(j: nat)
    requires j < 3
    ensures Replacement(j) == (TagOf(TagName(j)), [])
  {
  }

  /** What is left once the tag is cut out of `s` is inert. */
  lemma TagOutsideInert(s: JsStr, m: nat, j: nat, closing: bool, e: nat)
    requires TagIn(s, m, j, closing) && e == m + TagLength(j, closing)
    ensures Inert(s[..m] + s[e..])
  {
    var r := s[..m] + s[e..];
    forall k | 0 <= k < |r|
      ensures !IsAsciiLetter(r[k]) && r[k] != LT
    {
      if k < m {
        assert r[k] == s[k];
      } else {
        assert r[k] == s[k - m + e];
      }
    }
  }

  /** The tag's pattern matches at the tag and nowhere else. */
  lemma TagOnlyMatch(s: JsStr, m: nat, j: nat)
    requires j < 3 && forall k :: 0 <= k < |s| && k != m ==> s[k] != LT
    ensures OnlyMatchAt(Replacement(j).0, s, m)
  {
    forall k | 0 <= k <= |s| && k != m
      ensures NoMatchAt(Replacement(j).0, s, k)
    {
      if Match(Replacement(j).0, s, k).Some? {
        TagStart(j, s, k);
      }
    }
  }

  /** `a + t + b` holds the tag `t` at `|a|` and nothing else any pass could find. */
  lemma TagShape(a: JsStr, t: JsStr, b: JsStr, j: nat, closing: bool)
    requires Inert(a) && Inert(b) && j < 3 && TagText(t, TagName(j), closing)
    ensures |t| == TagLength(j, closing) && TagIn(a + t + b, |a|, j, closing)
  {
    var s := a + t + b;
    var name := TagName(j);
    var off := if closing then 2 else 1;
    UnitOf(a, t, b, |a|);
    if closing {
      UnitOf(a, t, b, |a| + 1);
    }
    UnitOf(a, t, b, |a| + off + |name|);
    forall i | 0 <= i < |name|
      ensures EqFold(s[|a| + off + i], name[i])
    {
      UnitOf(a, t, b, |a| + off + i);
      assert EqFold(t[off + i], name[i]);
    }
    forall k | 0 <= k < |s| && k != |a|
      ensures s[k] != LT
    {
      UnitOf(a, t, b, k);
      if |a| < k < |a| + |t| {
        TagTextNoLt(t, j, closing, k - |a|);
      }
    }
    forall k | 0 <= k < |s| && !(|a| <= k < |a| + |t|)
      ensures !IsAsciiLetter(s[k])
    {
      UnitOf(a, t, b, k);
    }
  }

  /** A tag holds no `<` after its first unit. */
  lemma TagTextNoLt(t: JsStr, j: nat, closing: bool, i: nat)
    requires j < 3 && TagText(t, TagName(j), closing) && 0 < i < |t|
    ensures t[i] != LT
  {
    var off := if closing then 2 else 1;
    if off <= i < off + |TagName(j)| {
      assert EqFold(t[off + (i - off)], TagName(j)[i - off]);
      TagNameLetters(j, i - off);
    }
  }

  /** The three names are made of ASCII letters. */
  lemma TagNameLetters(j: nat, i: nat)
    requires j < 3 && i < |TagName(j)|
    ensures IsAsciiLetter(TagName(j)[i])
  {
    assert "system" == ['s', 'y', 's', 't', 'e', 'm'];
    assert "user" == ['u', 's', 'e', 'r'];
    assert "assistant" == ['a', 's', 's', 'i', 's', 't', 'a', 'n', 't'];
  }

  /** At the tag, its own pattern takes the whole tag. */
  lemma TagMatchIn(s: JsStr, m: nat, j: nat, closing: bool)
    requires TagAtIn(s, m, j, closing)
    ensures Match(Replacement(j).0, s, m) == Some(m + TagLength(j, closing))
  {
    TagIsPass(j);
    TagNameFirst(j, j);
    NamedTagMatch(TagName(j), s, m, closing);
  }

  /** A tag whose name starts with a letter is taken whole by the pattern for that name. */
  lemma NamedTagMatch(name: JsStr, s: JsStr, m: nat, closing: bool)
    requires |name| > 0 && IsAsciiLetter(Lower(name[0]))
    requires m + (if closing then 2 else 1) + |name| < |s|
    requires s[m] == LT && (closing ==> s[m + 1] == SLASH)
    requires AtFold(s, m + (if closing then 2 else 1), name)
    requires s[m + (if closing then 2 else 1) + |name|] == GT
    ensures Match(TagOf(name), s, m) == Some(m + (if closing then 2 else 1) + |name| + 1)
  {
    TagMatch(name, s, m);
    if !closing {
      assert EqFold(s[m + 1 + 0], name[0]);
    }
  }

  /** The tag passes before the tag's own find nothing to delete. */
  lemma TagEarlierPasses(s: JsStr, m: nat, j: nat, closing: bool)
    requires TagIn(s, m, j, closing)
    ensures CleanBetween(s, 0, j)
  {
    forall q, i | 0 <= q < j && 0 <= i <= |s|
      ensures Match(Replacement(q).0, s, i).None?
    {
      OtherTagNoMatch(s, m, j, closing, q, i);
    }
  }

  /** The pattern of another name finds nothing where the only `<` opens the `j`th name's tag. */
  lemma OtherTagNoMatch(s: JsStr, m: nat, j: nat, closing: bool, q: nat, i: nat)
    requires TagAtIn(s, m, j, closing) && q < 3 && q != j && i <= |s|
    requires i < |s| && s[i] == LT ==> i == m
    ensures Match(Replacement(q).0, s, i).None?
  {
    TagIsPass(q);
    if i == m {
      TagNameFirst(j, q);
      TagNameFirst(q, j);
      OtherNameNoMatch(TagName(j), TagName(q), s, m, closing);
    } else if Match(Replacement(q).0, s, i).Some? {
      TagStart(q, s, i);
    }
  }

  /** Where a tag's name starts with one letter, the tag pattern for a name starting with another finds nothing. */
  lemma OtherNameNoMatch(name: JsStr, other: JsStr, s: JsStr, m: nat, closing: bool)
    requires |name| > 0 && |other| > 0 && !EqFold(name[0], other[0])
    requires IsAsciiLetter(Lower(name[0])) && IsAsciiLetter(Lower(other[0]))
    requires m < |s| && s[m] == LT && (closing ==> m + 1 < |s| && s[m + 1] == SLASH)
    requires AtFold(s, m + (if closing then 2 else 1), name)
    ensures Match(TagOf(other), s, m).None?
  {
    TagMatch(other, s, m);
    assert EqFold(s[m + (if closing then 2 else 1) + 0], name[0]);
  }

  /* ---------- a phrase pattern ---------- */

  /** At `i`, `act`, then exactly `n >= 1` white-space units, then `as`, in any case and as whole words. */
  predicate ActAsAtIn(s: JsStr, i: nat, n: nat)
  {
    && AtBoundary(s, i) && AtFold(s, i, Lit("act"))
    && n >= 1 && i + 3 + n <= |s| && n == Run(Space, s, i + 3)
    && AtFold(s, i + 3 + n, Lit("as")) && AtBoundary(s, i + 5 + n)
  }

  /**
   * `act`, one or more white-space units, `as`, in any case, standing as
   * whole words, is a match of the `act as` pattern that takes exactly
   * that stretch.
   */
  lemma ActAsMatch(s: JsStr, i: nat, n: nat)
    requires ActAsAtIn(s, i, n)
    ensures Match(ActAs, s, i) == Some(i + 5 + n)
  {
    SpacesThenAs(s, i, n);
    PhraseMatch(Lit("act"), AfterAct(), s, i, i + 5 + n);
  }

  /** A phrase pattern matches where its word stands at a boundary and the rest of it matches after the word. */
  lemma PhraseMatch(w: JsStr, rest: Pattern, s: JsStr, i: nat, e: nat)
    requires AtBoundary(s, i) && AtFold(s, i, w) && Match(rest, s, i + |w|) == Some(e)
    ensures Match(Phrase(w, rest), s, i) == Some(e)
  {
    var p := Phrase(w, rest);
    assert p[0] == Boundary && p[1..] == Word(w, true) + rest;
    WordThen(w, true, rest, s, i);
  }

  /** After `act`: the white-space run is taken whole, then `as` and a word boundary. */
  lemma SpacesThenAs(s: JsStr, i: nat, n: nat)
    requires n >= 1 && i + 3 + n <= |s| && n == Run(Space, s, i + 3)
    requires AtFold(s, i + 3 + n, Lit("as")) && AtBoundary(s, i + 5 + n)
    ensures Match(AfterAct(), s, i + 3) == Some(i + 5 + n)
  {
    SpacesThenWord(Lit("as"), s, i + 3, n);
  }

  /** One or more white-space units, taken whole, then the word `w` in any case and a word boundary. */
  lemma SpacesThenWord(w: JsStr, s: JsStr, k: nat, n: nat)
    requires n >= 1 && k + n <= |s| && n == Run(Space, s, k)
    requires AtFold(s, k + n, w) && AtBoundary(s, k + n + |w|)
    ensures Match([Spaces] + Word(w, true) + [Boundary], s, k) == Some(k + n + |w|)
  {
    var rest := Word(w, true) + [Boundary];
    var p := [Spaces] + Word(w, true) + [Boundary];
    assert p[0] == Spaces && p[1..] == rest;
    WordThen(w, true, [Boundary], s, k + n);
    assert Match([Boundary], s, k + n + |w|) == Match([], s, k + n + |w|);
    assert Match(rest, s, k + n) == Some(k + n + |w|);
    BackLongest(rest, s, k, n, 1);
    assert Match(p, s, k) == Back(rest, s, k, n, 1);
  }
}
