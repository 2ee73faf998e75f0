/**
 * JavaScript strings as sequences of UTF-16 code units, with the handful of
 * String.prototype operations the extraction and parsing code relies on:
 * trim, indexOf / lastIndexOf, ASCII case folding (what a regular expression
 * with the `i` flag and no `u` flag does), `\b` word characters and decimal
 * rendering of integers.
 */
module JsText {
  import opened Wrappers

  /** One UTF-16 code unit. `length`, `slice` and every size limit count these. */
  type Unit = x: int | 0 <= x < 0x1_0000

  type JsStr = seq<Unit>

  /** The code unit of a character of the Basic Multilingual Plane. */
  function U(c: char): Unit
  {
    if c as int < 0x1_0000 then c as int else 0xFFFD
  }

  /** The code units of a string literal (every literal in this model is BMP-only). */
  function Lit(s: string): (r: JsStr)
    ensures |r| == |s|
    ensures forall i :: 0 <= i < |s| ==> r[i] == U(s[i])
  {
    seq(|s|, i requires 0 <= i < |s| => U(s[i]))
  }

  const TAB: Unit := 9
  const NL: Unit := 10
  const SPACE: Unit := 32
  const QUOTE: Unit := 34
  const AMP: Unit := 38
  const APOS: Unit := 39
  const SLASH: Unit := 47
  const SEMI: Unit := 59
  const LT: Unit := 60
  const GT: Unit := 62
  const BACKTICK: Unit := 96
  const LBRACE: Unit := 123
  const RBRACE: Unit := 125

  /**
   * The code units `\s` matches and `trim` removes: ECMAScript WhiteSpace
   * (tab, vertical tab, form feed, space, no-break space, the byte order mark
   * and the space separators) and LineTerminator (LF, CR, U+2028, U+2029).
   */
  predicate IsSpace(u: Unit)
  {
    || u == 9 || u == 10 || u == 11 || u == 12 || u == 13 || u == 32
    || u == 0xA0 || u == 0x1680 || (0x2000 <= u <= 0x200A)
    || u == 0x2028 || u == 0x2029 || u == 0x202F || u == 0x205F
    || u == 0x3000 || u == 0xFEFF
  }

  predicate IsDigit(u: Unit) { 48 <= u <= 57 }

  predicate IsAsciiLetter(u: Unit) { (65 <= u <= 90) || (97 <= u <= 122) }

  predicate IsHexDigit(u: Unit) { IsDigit(u) || (65 <= u <= 70) || (97 <= u <= 102) }

  /** `\w` without the `u` flag: the units on either side of a `\b` are tested with this. */
  predicate IsWordUnit(u: Unit) { IsDigit(u) || IsAsciiLetter(u) || u == 95 }

  /** ASCII lower-casing; with the `i` flag and no `u` flag no other unit folds onto ASCII. */
  function Lower(u: Unit): Unit
  {
    if 65 <= u <= 90 then u + 32 else u
  }

  predicate EqFold(a: Unit, b: Unit) { Lower(a) == Lower(b) }

  /** `s` has no leading white space. */
  predicate NoLeadingSpace(s: JsStr) { |s| > 0 ==> !IsSpace(s[0]) }

  /** `s` has no trailing white space. */
  predicate NoTrailingSpace(s: JsStr) { |s| > 0 ==> !IsSpace(s[|s| - 1]) }

  predicate AllSpace(s: JsStr) { forall i :: 0 <= i < |s| ==> IsSpace(s[i]) }

  /** Drops the leading white space; `TrimStartShape` states what it keeps and drops. */
  function TrimStart(s: JsStr): (r: JsStr)
    ensures |r| <= |s|
    decreases |s|
  {
    if |s| > 0 && IsSpace(s[0]) then TrimStart(s[1..]) else s
  }

  /** What `TrimStart` drops is all white space, and what it keeps is a suffix starting with none. */
  lemma {:induction false} TrimStartShape(s: JsStr)
    ensures TrimStart(s) == s[|s| - |TrimStart(s)|..]
    ensures AllSpace(s[..|s| - |TrimStart(s)|]) && NoLeadingSpace(TrimStart(s))
    decreases |s|
  {
    if |s| > 0 && IsSpace(s[0]) {
      TrimStartShape(s[1..]);
      assert s[1..][..|s| - 1 - |TrimStart(s)|] == s[1..|s| - |TrimStart(s)|];
    }
  }

  /** Drops the trailing white space: what is dropped is all white space, what is kept ends with none. */
  function TrimEnd(s: JsStr): (r: JsStr)
    ensures |r| <= |s| && r == s[..|r|]
    ensures AllSpace(s[|r|..]) && NoTrailingSpace(r)
    decreases |s|
  {
    if |s| > 0 && IsSpace(s[|s| - 1]) then TrimEnd(s[..|s| - 1]) else s
  }

  /** A non-empty slice is its first unit followed by the rest. */
  lemma SliceCons(s: JsStr, i: nat, m: nat)
    requires i < m <= |s|
    ensures s[i..m] == [s[i]] + s[i + 1..m]
  {
  }

  /** Prepending a unit to a concatenation. */
  lemma ConsAppend(u: Unit, x: JsStr, y: JsStr)
    ensures [u] + (x + y) == ([u] + x) + y
  {
  }

  /** `String.prototype.trim`: `TrimShape` states what it keeps and drops. */
  function Trim(s: JsStr): (r: JsStr)
    ensures |r| <= |s|
    ensures NoLeadingSpace(r) && NoTrailingSpace(r)
  {
    TrimStartShape(s);
    TrimLeadingKept(TrimStart(s));
    TrimEnd(TrimStart(s))
  }

  /**
   * What `trim` returns is a contiguous part of its input with no white
   * space at either end, and everything it drops before and after that
   * part is white space.
   */
  lemma TrimShape(s: JsStr)
    ensures |Trim(s)| <= |TrimStart(s)| <= |s|
    ensures NoLeadingSpace(Trim(s)) && NoTrailingSpace(Trim(s))
    ensures Trim(s) == s[|s| - |TrimStart(s)|..|s| - |TrimStart(s)| + |Trim(s)|]
    ensures AllSpace(s[..|s| - |TrimStart(s)|]) && AllSpace(s[|s| - |TrimStart(s)| + |Trim(s)|..])
  {
    var a := TrimStart(s);
    TrimStartShape(s);
    TrimLeadingKept(a);
    TrimInfix(s, a, TrimEnd(a));
  }

  lemma TrimInfix(s: JsStr, a: JsStr, r: JsStr)
    requires |a| <= |s| && a == s[|s| - |a|..]
    requires |r| <= |a| && r == a[..|r|] && AllSpace(a[|r|..])
    ensures r == s[|s| - |a|..|s| - |a| + |r|]
    ensures AllSpace(s[|s| - |a| + |r|..])
  {
    var n := |s| - |a|;
    assert a[|r|..] == s[n + |r|..];
  }

  /** Trimming the end of a string that has no leading white space leaves it none. */
  lemma TrimLeadingKept(s: JsStr)
    requires NoLeadingSpace(s)
    ensures NoLeadingSpace(TrimEnd(s))
  {
    var r := TrimEnd(s);
    if |r| > 0 {
      assert r[0] == s[0];
    }
  }

  /** The longest text this model keeps: both extractors cap their output at 50000 units. */
  const MaxTextLength := 50000

  /**
   * `s.length > 50000 ? s.slice(0, 50000) + marker : s`, the cap both
   * extractors put on their output.
   */
  function Capped(s: JsStr, marker: JsStr): (r: JsStr)
    ensures |s| <= MaxTextLength ==> r == s
    ensures |s| > MaxTextLength ==> r == s[..MaxTextLength] + marker
    ensures |r| <= MaxTextLength + |marker|
  {
    if |s| > MaxTextLength then s[..MaxTextLength] + marker else s
  }

  /** `s[k..]` starts with `p`. */
  predicate At(s: JsStr, k: int, p: JsStr)
  {
    0 <= k && k + |p| <= |s| && s[k..k + |p|] == p
  }

  /** `s[k..]` starts with `p`, letters compared without regard to ASCII case. */
  predicate AtFold(s: JsStr, k: int, p: JsStr)
  {
    0 <= k && k + |p| <= |s| && forall j :: 0 <= j < |p| ==> EqFold(s[k + j], p[j])
  }

  /** The first position at or after `from` where `s` has the unit `u`: `s.indexOf(u, from)`. */
  function IndexOfUnit(s: JsStr, u: Unit, from: nat): (r: Option<nat>)
    ensures r.Some? ==> from <= r.value < |s| && s[r.value] == u
    ensures r.Some? ==> forall j :: from <= j < r.value ==> s[j] != u
    ensures r.None? ==> forall j :: from <= j < |s| ==> s[j] != u
    decreases |s| - from
  {
    if from >= |s| then None
    else if s[from] == u then Some(from)
    else IndexOfUnit(s, u, from + 1)
  }

  /** The last position where `s` has the unit `u`: `s.lastIndexOf(u)`. */
  function LastIndexOfUnit(s: JsStr, u: Unit): (r: Option<nat>)
    ensures r.Some? ==> r.value < |s| && s[r.value] == u
    ensures r.Some? ==> forall j :: r.value < j < |s| ==> s[j] != u
    ensures r.None? ==> forall j :: 0 <= j < |s| ==> s[j] != u
    decreases |s|
  {
    if |s| == 0 then None
    else if s[|s| - 1] == u then Some(|s| - 1)
    else LastIndexOfUnit(s[..|s| - 1], u)
  }

  /** The first position at or after `from` where `p` occurs in `s`, ignoring ASCII case when `fold`. */
  function IndexOf(s: JsStr, p: JsStr, from: nat, fold: bool): (r: Option<nat>)
    ensures r.Some? ==> from <= r.value && (if fold then AtFold(s, r.value, p) else At(s, r.value, p))
    ensures r.Some? ==> forall j :: from <= j < r.value ==> !(if fold then AtFold(s, j, p) else At(s, j, p))
    ensures r.None? ==> forall j :: from <= j ==> !(if fold then AtFold(s, j, p) else At(s, j, p))
    decreases |s| - from
  {
    if from + |p| > |s| then None
    else if (if fold then AtFold(s, from, p) else At(s, from, p)) then Some(from)
    else IndexOf(s, p, from + 1, fold)
  }

  /** The first occurrence at or after `from` is the one `IndexOf` finds. */
  lemma {:induction false} IndexOfFirst(s: JsStr, p: JsStr, from: nat, fold: bool, k: nat)
    requires from <= k && (if fold then AtFold(s, k, p) else At(s, k, p))
    requires forall j :: from <= j < k ==> !(if fold then AtFold(s, j, p) else At(s, j, p))
    ensures IndexOf(s, p, from, fold) == Some(k)
    decreases k - from
  {
    if from < k {
      IndexOfFirst(s, p, from + 1, fold, k);
    }
  }

  /** The last position where `p` occurs in `s`, ignoring ASCII case when `fold`. */
  function LastIndexOf(s: JsStr, p: JsStr, fold: bool): (r: Option<nat>)
    ensures r.Some? ==> (if fold then AtFold(s, r.value, p) else At(s, r.value, p))
    ensures r.Some? ==> forall j :: r.value < j ==> !(if fold then AtFold(s, j, p) else At(s, j, p))
    ensures r.None? ==> forall j :: 0 <= j ==> !(if fold then AtFold(s, j, p) else At(s, j, p))
  {
    LastFrom(s, p, |s|, fold)
  }

  function LastFrom(s: JsStr, p: JsStr, upto: nat, fold: bool): (r: Option<nat>)
    requires upto <= |s|
    ensures r.Some? ==> r.value <= upto && (if fold then AtFold(s, r.value, p) else At(s, r.value, p))
    ensures r.Some? ==> forall j :: r.value < j <= upto ==> !(if fold then AtFold(s, j, p) else At(s, j, p))
    ensures r.None? ==> forall j :: 0 <= j <= upto ==> !(if fold then AtFold(s, j, p) else At(s, j, p))
    decreases upto
  {
    if (if fold then AtFold(s, upto, p) else At(s, upto, p)) then Some(upto)
    else if upto == 0 then None
    else LastFrom(s, p, upto - 1, fold)
  }

  /** The decimal digits of a natural number, most significant first. */
  function Digits(n: nat): (r: JsStr)
    ensures 1 <= |r| && forall i :: 0 <= i < |r| ==> IsDigit(r[i])
    ensures DecimalValue(r) == n
  {
    if n < 10 then [48 + n] else Digits(n / 10) + [48 + n % 10]
  }

  /** The value of a run of decimal digits. */
  function DecimalValue(ds: JsStr): nat
  {
    if |ds| == 0 then 0
    else DecimalValue(ds[..|ds| - 1]) * 10 + (if IsDigit(ds[|ds| - 1]) then ds[|ds| - 1] - 48 else 0)
  }

  function HexDigitValue(u: Unit): nat
  {
    if IsDigit(u) then u - 48
    else if 65 <= u <= 70 then u - 55
    else if 97 <= u <= 102 then u - 87
    else 0
  }

  /** The value of a run of hexadecimal digits: `parseInt(ds, 16)`. */
  function HexValue(ds: JsStr): nat
  {
    if |ds| == 0 then 0 else HexValue(ds[..|ds| - 1]) * 16 + HexDigitValue(ds[|ds| - 1])
  }

  /**
   * `String(n)` for an integer below 10^21 in magnitude: an optional minus
   * sign, then decimal digits whose value is the magnitude.
   */
  function DecimalString(n: int): (r: JsStr)
    ensures n >= 0 ==> forall i :: 0 <= i < |r| ==> IsDigit(r[i])
    ensures n >= 0 ==> 1 <= |r| && DecimalValue(r) == n
    ensures n < 0 ==> 2 <= |r| && r[0] == 45 && DecimalValue(r[1..]) == -n
  {
    if n < 0 then
      var ds := Digits(-n);
      assert ([45] + ds)[1..] == ds;
      [45] + ds
    else Digits(n)
  }
}
