/**
 * The fragment of JavaScript regular expressions that the text-cleaning
 * `.replace(/…/g, …)` chains use, with JavaScript's backtracking semantics:
 * unit classes, greedy repetition with a minimum count (`*`, `+`, `{3,}`),
 * a greedy optional group `(…)?` over plain elements, and `\b`.
 *
 * `Match` answers where the first successful path of the backtracking
 * matcher ends when the match starts at a given position; `Replace` is
 * `String.prototype.replace` with the `g` flag: the leftmost match is
 * replaced, the search resumes at its end, and after an empty match it
 * resumes one unit further on.
 */
module Regex {
  import opened Wrappers
  import opened JsText

  /** The set of code units one position of a pattern accepts. */
  datatype Class =
    | Is(u: Unit)          // the unit itself
    | Fold(u: Unit)        // the unit, ASCII case ignored (the `i` flag)
    | Space                // \s
    | Digit                // \d
    | HexDigit             // [0-9a-f] under the `i` flag
    | Not(u: Unit)         // [^u]
    | Among(us: seq<Unit>) // [ \t]

  predicate Has(c: Class, x: Unit)
  {
    match c
    case Is(u) => x == u
    case Fold(u) => EqFold(x, u)
    case Space => IsSpace(x)
    case Digit => IsDigit(x)
    case HexDigit => IsHexDigit(x)
    case Not(u) => x != u
    case Among(us) => x in us
  }

  datatype Elem =
    | One(c: Class)               // one unit of the class
    | Greedy(c: Class, min: nat)  // c{min,}, as many as possible first
    | WordBoundary                // \b

  /** A pattern is a sequence of pieces; an optional group holds plain elements. */
  datatype Piece = Atom(e: Elem) | Optional(alt: seq<Elem>)

  type Pattern = seq<Piece>

  function Atoms(es: seq<Elem>): (p: Pattern)
    ensures |p| == |es| && forall k :: 0 <= k < |es| ==> p[k] == Atom(es[k])
  {
    seq(|es|, k requires 0 <= k < |es| => Atom(es[k]))
  }

  function PieceSize(q: Piece): nat
  {
    match q
    case Atom(_) => 1
    case Optional(alt) => 1 + |alt|
  }

  function Size(p: Pattern): nat
  {
    if |p| == 0 then 0 else PieceSize(p[0]) + Size(p[1..])
  }

  /** The fewest units a match of the piece consumes. */
  function PieceMin(q: Piece): nat
  {
    match q
    case Atom(One(_)) => 1
    case Atom(Greedy(_, min)) => min
    case Atom(WordBoundary) => 0
    case Optional(_) => 0
  }

  /** The fewest units a match of the pattern consumes. */
  function MinLen(p: Pattern): nat
  {
    if |p| == 0 then 0 else PieceMin(p[0]) + MinLen(p[1..])
  }

  lemma {:induction false} SizeAppend(a: Pattern, b: Pattern)
    ensures Size(a + b) == Size(a) + Size(b)
    ensures MinLen(a + b) == MinLen(a) + MinLen(b)
  {
    if |a| > 0 {
      assert (a + b)[1..] == a[1..] + b;
      SizeAppend(a[1..], b);
    } else {
      assert a + b == b;
    }
  }

  lemma {:induction false} AtomsSize(es: seq<Elem>)
    ensures Size(Atoms(es)) == |es|
  {
    if |es| > 0 {
      assert Atoms(es)[1..] == Atoms(es[1..]);
      AtomsSize(es[1..]);
    }
  }

  /** The unit before position `i` and the unit at it differ in being word units. */
  predicate AtBoundary(s: JsStr, i: nat)
  {
    (0 < i <= |s| && IsWordUnit(s[i - 1])) != (i < |s| && IsWordUnit(s[i]))
  }

  /** How many units of class `c` follow position `i`. */
  function Run(c: Class, s: JsStr, i: nat): (n: nat)
    requires i <= |s|
    ensures i + n <= |s|
    ensures forall k :: i <= k < i + n ==> Has(c, s[k])
    ensures i + n == |s| || !Has(c, s[i + n])
    decreases |s| - i
  {
    if i < |s| && Has(c, s[i]) then 1 + Run(c, s, i + 1) else 0
  }

  /**
   * Where the first successful backtracking path for `p`, started at `i`,
   * ends; None when every path fails.
   */
  function Match(p: Pattern, s: JsStr, i: nat): (r: Option<nat>)
    requires i <= |s|
    ensures r.Some? ==> i + MinLen(p) <= r.value <= |s|
    decreases Size(p), 0
  {
    if |p| == 0 then Some(i)
    else match p[0]
      case Atom(One(c)) =>
        if i < |s| && Has(c, s[i]) then Match(p[1..], s, i + 1) else None
      case Atom(WordBoundary) =>
        if AtBoundary(s, i) then Match(p[1..], s, i) else None
      case Atom(Greedy(c, min)) =>
        Back(p[1..], s, i, Run(c, s, i), min)
      case Optional(alt) =>
        SizeAppend(Atoms(alt), p[1..]);
        AtomsSize(alt);
        var taken := Match(Atoms(alt) + p[1..], s, i);
        if taken.Some? then taken else Match(p[1..], s, i)
  }

  /** A greedy repetition that took `k` units: try the rest, then give units back one by one down to `min`. */
  function Back(rest: Pattern, s: JsStr, i: nat, k: nat, min: nat): (r: Option<nat>)
    requires i + k <= |s|
    ensures r.Some? ==> i + min + MinLen(rest) <= r.value <= |s|
    decreases Size(rest), k + 1
  {
    if k < min then None
    else
      var m := Match(rest, s, i + k);
      if m.Some? then m
      else if k == 0 then None
      else Back(rest, s, i, k - 1, min)
  }

  /** Where `p` matches a non-empty stretch at `i`, that stretch is replaced and the scan goes on after it. */
  lemma MatchStep(p: Pattern, f: JsStr -> JsStr, s: JsStr, i: nat, j: nat)
    requires i < j <= |s| && Match(p, s, i) == Some(j)
    ensures ReplaceFrom(p, f, s, i) == f(s[i..j]) + ReplaceFrom(p, f, s, j)
  {
  }

  /** The backtracking loop takes the longest count it is offered when the rest matches after it. */
  lemma BackLongest(rest: Pattern, s: JsStr, i: nat, k: nat, min: nat)
    requires i + k <= |s| && min <= k && Match(rest, s, i + k).Some?
    ensures Back(rest, s, i, k, min) == Match(rest, s, i + k)
  {
  }

  /** `s.slice(i)` with every match of `p` replaced by `f` of the matched text. */
  function ReplaceFrom(p: Pattern, f: JsStr -> JsStr, s: JsStr, i: nat): JsStr
    requires i <= |s|
    decreases |s| - i
  {
    match Match(p, s, i)
    case Some(j) =>
      if j > i then f(s[i..j]) + ReplaceFrom(p, f, s, j)
      else f([]) + (if i < |s| then [s[i]] + ReplaceFrom(p, f, s, i + 1) else [])
    case None =>
      if i < |s| then [s[i]] + ReplaceFrom(p, f, s, i + 1) else []
  }

  /** `s.replace(p, f)` with the `g` flag. */
  function Replace(p: Pattern, f: JsStr -> JsStr, s: JsStr): JsStr
  {
    ReplaceFrom(p, f, s, 0)
  }

  /** The replacement function that ignores the match: `s.replace(p, r)` with a plain string `r`. */
  function Const(r: JsStr): JsStr -> JsStr
  {
    (m: JsStr) => r
  }

  /** A pattern whose first piece is a single unit of class `c` only matches where `s` has such a unit. */
  lemma MatchStartsWith(p: Pattern, c: Class, s: JsStr, i: nat)
    requires |p| > 0 && p[0] == Atom(One(c)) && i <= |s|
    requires Match(p, s, i).Some?
    ensures i < |s| && Has(c, s[i])
  {
  }

  /** Where `p` matches nowhere at or after `i`, replacing leaves the text as it is. */
  lemma {:induction false} ReplaceNoMatch(p: Pattern, f: JsStr -> JsStr, s: JsStr, i: nat)
    requires i <= |s|
    requires forall k :: i <= k <= |s| ==> Match(p, s, k).None?
    ensures ReplaceFrom(p, f, s, i) == s[i..]
    decreases |s| - i
  {
    if i < |s| {
      ReplaceNoMatch(p, f, s, i + 1);
      assert s[i..] == [s[i]] + s[i + 1..];
    }
  }

  /**
   * The text before the first match is kept as it is, the match is replaced,
   * and the search resumes at the end of the match.
   */
  lemma ReplaceFirstMatch(p: Pattern, f: JsStr -> JsStr, s: JsStr, i: nat, m: nat, j: nat)
    requires i <= m <= |s|
    requires forall k :: i <= k < m ==> Match(p, s, k).None?
    requires Match(p, s, m) == Some(j) && j > m
    ensures ReplaceFrom(p, f, s, i) == s[i..m] + f(s[m..j]) + ReplaceFrom(p, f, s, j)
  {
    ReplaceSkipTo(p, f, s, i, m);
    assert ReplaceFrom(p, f, s, m) == f(s[m..j]) + ReplaceFrom(p, f, s, j);
  }

  /** Where nothing matches, the text is copied as it is. */
  lemma {:induction false} ReplaceSkipTo(p: Pattern, f: JsStr -> JsStr, s: JsStr, i: nat, m: nat)
    requires i <= m <= |s|
    requires forall k :: i <= k < m ==> Match(p, s, k).None?
    ensures ReplaceFrom(p, f, s, i) == s[i..m] + ReplaceFrom(p, f, s, m)
    decreases m - i
  {
    if i < m {
      var rest := ReplaceFrom(p, f, s, m);
      assert ReplaceFrom(p, f, s, i) == [s[i]] + ReplaceFrom(p, f, s, i + 1) by {
        assert Match(p, s, i).None?;
      }
      ReplaceSkipTo(p, f, s, i + 1, m);
      ConsAppend(s[i], s[i + 1..m], rest);
      SliceCons(s, i, m);
    }
  }

  /** A run of `n` units of class `c` at `i`, ended by the text's end or by a unit outside `c`, is what `Run` counts. */
  lemma RunIs(c: Class, s: JsStr, i: nat, n: nat)
    requires i + n <= |s|
    requires forall k :: i <= k < i + n ==> Has(c, s[k])
    requires i + n == |s| || !Has(c, s[i + n])
    ensures Run(c, s, i) == n
  {
  }

  /** A run inside the second part of a text is the run of that part alone. */
  lemma {:induction false} RunSuffix(c: Class, x: JsStr, y: JsStr, k: nat)
    requires k <= |y|
    ensures Run(c, x + y, |x| + k) == Run(c, y, k)
    decreases |y| - k
  {
    if k < |y| {
      assert (x + y)[|x| + k] == y[k];
      if Has(c, y[k]) {
        RunSuffix(c, x, y, k + 1);
      }
    }
  }

  /** A run that starts in a text ending outside the class stops inside it, whatever follows. */
  lemma RunPrefix(c: Class, a: JsStr, z: JsStr, k: nat)
    requires k < |a| && !Has(c, a[|a| - 1])
    ensures Run(c, a + z, k) == Run(c, a, k)
  {
    var n := Run(c, a, k);
    assert k + n < |a|;
    forall j | k <= j < k + n
      ensures Has(c, (a + z)[j])
    {
      assert (a + z)[j] == a[j];
    }
    assert (a + z)[k + n] == a[k + n];
    RunIs(c, a + z, k, n);
  }

  /** A match result moved `d` units to the right. */
  function Shifted(r: Option<nat>, d: nat): Option<nat>
  {
    if r.Some? then Some(r.value + d) else None
  }

  /**
   * Where `p` matches in `x + y` at each position of the `y` part just as it
   * does in `y` alone, replacing over the `y` part is replacing in `y`.
   */
  lemma {:induction false} ReplaceSuffix(p: Pattern, f: JsStr -> JsStr, x: JsStr, y: JsStr, i: nat)
    requires i <= |y|
    requires forall k :: i <= k <= |y| ==> Match(p, x + y, |x| + k) == Shifted(Match(p, y, k), |x|)
    ensures ReplaceFrom(p, f, x + y, |x| + i) == ReplaceFrom(p, f, y, i)
    decreases |y| - i
  {
    var m := Match(p, y, i);
    assert Match(p, x + y, |x| + i) == Shifted(m, |x|);
    if m.Some? && m.value > i {
      ReplaceSuffix(p, f, x, y, m.value);
      SuffixMatchStep(p, f, x, y, i, m.value);
    } else if i < |y| {
      ReplaceSuffix(p, f, x, y, i + 1);
      SuffixUnitStep(p, f, x, y, i);
    } else {
      SuffixEnd(p, f, x, y);
    }
  }

  /** A step of `ReplaceSuffix` where a match inside the `y` part is replaced. */
  lemma SuffixMatchStep(p: Pattern, f: JsStr -> JsStr, x: JsStr, y: JsStr, i: nat, j: nat)
    requires i < j <= |y|
    requires Match(p, y, i) == Some(j) && Match(p, x + y, |x| + i) == Some(|x| + j)
    requires ReplaceFrom(p, f, x + y, |x| + j) == ReplaceFrom(p, f, y, j)
    ensures ReplaceFrom(p, f, x + y, |x| + i) == ReplaceFrom(p, f, y, i)
  {
    assert (x + y)[|x| + i..|x| + j] == y[i..j];
  }

  /** A step of `ReplaceSuffix` where a unit of the `y` part is copied, after an empty match or none. */
  lemma SuffixUnitStep(p: Pattern, f: JsStr -> JsStr, x: JsStr, y: JsStr, i: nat)
    requires i < |y|
    requires Match(p, y, i).Some? ==> Match(p, y, i).value == i
    requires Match(p, x + y, |x| + i) == Shifted(Match(p, y, i), |x|)
    requires ReplaceFrom(p, f, x + y, |x| + i + 1) == ReplaceFrom(p, f, y, i + 1)
    ensures ReplaceFrom(p, f, x + y, |x| + i) == ReplaceFrom(p, f, y, i)
  {
    assert (x + y)[|x| + i] == y[i];
    UnitStep(p, f, x + y, |x| + i);
    UnitStep(p, f, y, i);
  }

  /** At the end of `y` both sides replace at most an empty match. */
  lemma SuffixEnd(p: Pattern, f: JsStr -> JsStr, x: JsStr, y: JsStr)
    requires Match(p, x + y, |x| + |y|) == Shifted(Match(p, y, |y|), |x|)
    ensures ReplaceFrom(p, f, x + y, |x| + |y|) == ReplaceFrom(p, f, y, |y|)
  {
  }

  /**
   * Where `p` matches in `a + c` at each position of the `a` part just as it
   * does in `a` alone, and not at the end of `a`, replacing over the `a`
   * part is replacing in `a`.
   */
  lemma {:induction false} ReplacePrefix(p: Pattern, f: JsStr -> JsStr, a: JsStr, c: JsStr, i: nat)
    requires i <= |a|
    requires forall k :: i <= k < |a| ==> Match(p, a + c, k) == Match(p, a, k)
    requires Match(p, a, |a|).None?
    ensures ReplaceFrom(p, f, a + c, i) == ReplaceFrom(p, f, a, i) + ReplaceFrom(p, f, a + c, |a|)
    decreases |a| - i
  {
    if i == |a| {
      assert ReplaceFrom(p, f, a, i) == [];
    } else {
      var m := Match(p, a, i);
      assert Match(p, a + c, i) == m;
      if m.Some? && m.value > i {
        ReplacePrefix(p, f, a, c, m.value);
        PrefixMatchStep(p, f, a, c, i, m.value, ReplaceFrom(p, f, a + c, |a|));
      } else {
        ReplacePrefix(p, f, a, c, i + 1);
        PrefixUnitStep(p, f, a, c, i, ReplaceFrom(p, f, a + c, |a|));
      }
    }
  }

  /** A step of `ReplacePrefix` where a match inside the `a` part is replaced. */
  lemma PrefixMatchStep(p: Pattern, f: JsStr -> JsStr, a: JsStr, c: JsStr, i: nat, j: nat, tail: JsStr)
    requires i < j <= |a|
    requires Match(p, a + c, i) == Some(j) && Match(p, a, i) == Some(j)
    requires ReplaceFrom(p, f, a + c, j) == ReplaceFrom(p, f, a, j) + tail
    ensures ReplaceFrom(p, f, a + c, i) == ReplaceFrom(p, f, a, i) + tail
  {
    assert (a + c)[i..j] == a[i..j];
    MatchStepBoth(p, f, a + c, a, i, j, tail);
  }

  /** Where a match from `i` to `j` covers the same units in two texts, the replacements from `i` differ as they do from `j`. */
  lemma MatchStepBoth(p: Pattern, f: JsStr -> JsStr, s: JsStr, t: JsStr, i: nat, j: nat, tail: JsStr)
    requires i < j <= |t| && j <= |s| && s[i..j] == t[i..j]
    requires Match(p, s, i) == Some(j) && Match(p, t, i) == Some(j)
    requires ReplaceFrom(p, f, s, j) == ReplaceFrom(p, f, t, j) + tail
    ensures ReplaceFrom(p, f, s, i) == ReplaceFrom(p, f, t, i) + tail
  {
    MatchStep(p, f, s, i, j);
    MatchStep(p, f, t, i, j);
    SameHead(ReplaceFrom(p, f, s, i), ReplaceFrom(p, f, t, i), f(t[i..j]), ReplaceFrom(p, f, t, j), tail);
  }

  /** Text made of the same head before a rest that differs only by `tail` differs only by `tail`. */
  lemma SameHead(x: JsStr, y: JsStr, h: JsStr, rest: JsStr, tail: JsStr)
    requires x == h + (rest + tail) && y == h + rest
    ensures x == y + tail
  {
    assert h + (rest + tail) == (h + rest) + tail;
  }

  /** A step of `ReplacePrefix` where a unit of the `a` part is copied, after an empty match or none. */
  lemma PrefixUnitStep(p: Pattern, f: JsStr -> JsStr, a: JsStr, c: JsStr, i: nat, tail: JsStr)
    requires i < |a|
    requires Match(p, a + c, i) == Match(p, a, i)
    requires Match(p, a, i).Some? ==> Match(p, a, i).value == i
    requires ReplaceFrom(p, f, a + c, i + 1) == ReplaceFrom(p, f, a, i + 1) + tail
    ensures ReplaceFrom(p, f, a + c, i) == ReplaceFrom(p, f, a, i) + tail
  {
    assert (a + c)[i] == a[i];
    UnitStepBoth(p, f, a + c, a, i, tail);
  }

  /**
   * Where two texts agree at `i`, `p` matches there in both alike and at
   * most the empty text, and what follows replaces to the same text but for
   * `tail`, so does the replacement from `i`.
   */
  lemma UnitStepBoth(p: Pattern, f: JsStr -> JsStr, s: JsStr, t: JsStr, i: nat, tail: JsStr)
    requires i < |s| && i < |t| && s[i] == t[i]
    requires Match(p, s, i) == Match(p, t, i)
    requires Match(p, t, i).Some? ==> Match(p, t, i).value == i
    requires ReplaceFrom(p, f, s, i + 1) == ReplaceFrom(p, f, t, i + 1) + tail
    ensures ReplaceFrom(p, f, s, i) == ReplaceFrom(p, f, t, i) + tail
  {
    UnitStep(p, f, s, i);
    UnitStep(p, f, t, i);
    var h := (if Match(p, t, i).Some? then f([]) else []) + [t[i]];
    SameHead(ReplaceFrom(p, f, s, i), ReplaceFrom(p, f, t, i), h, ReplaceFrom(p, f, t, i + 1), tail);
  }

  /** Where `p` matches nothing, or only the empty text, at `i`, the unit there is copied after `f([])` or nothing. */
  lemma UnitStep(p: Pattern, f: JsStr -> JsStr, s: JsStr, i: nat)
    requires i < |s|
    requires Match(p, s, i).Some? ==> Match(p, s, i).value == i
    ensures ReplaceFrom(p, f, s, i) == (if Match(p, s, i).Some? then f([]) else []) + [s[i]] + ReplaceFrom(p, f, s, i + 1)
  {
    if Match(p, s, i).None? {
      assert [] + [s[i]] == [s[i]];
    }
  }

  /** Replacing matches that need at least one unit by text no longer than the match never lengthens. */
  lemma {:induction false} ReplaceNeverLonger(p: Pattern, f: JsStr -> JsStr, s: JsStr, i: nat)
    requires i <= |s|
    requires MinLen(p) >= 1
    requires forall m: JsStr :: |m| >= MinLen(p) ==> |f(m)| <= |m|
    ensures |ReplaceFrom(p, f, s, i)| <= |s| - i
    decreases |s| - i
  {
    match Match(p, s, i)
    case Some(j) =>
      assert |f(s[i..j])| <= j - i;
      ReplaceNeverLonger(p, f, s, j);
    case None =>
      if i < |s| {
        ReplaceNeverLonger(p, f, s, i + 1);
      }
  }
}
