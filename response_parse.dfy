/**
 * The first half of `safeJsonParse`: from the model's reply text to the
 * string handed to `JSON.parse`. The reply is trimmed; if it holds a
 * fenced block (three backticks, an optional `json` tag) the block's
 * interior is the candidate, otherwise the whole trimmed reply is; the
 * string parsed runs from the candidate's first `{` to its last `}`.
 */
module ResponseParse {
  import opened Wrappers
  import opened JsText
  import opened Regex

  const Fence: JsStr := [BACKTICK, BACKTICK, BACKTICK]
  const JsonTag: JsStr := Lit("json")

  /**
   * The capture of ```` /```(?:json)?\s*([\s\S]*?)\s*```/i ````.
   *
   * Every match starts at an occurrence of three backticks, and the first
   * occurrence `i` decides: the optional `json` (any case) is taken when
   * present, the greedy `\s*` then takes the white space after it, and the
   * lazy group stops at the first fence `q` after that, giving back to the
   * second `\s*` the white space just before `q`. When there is no such
   * `q` no later start can succeed either, since a later fence start lies
   * inside the units already scanned, which hold no fence. So the capture
   * is the text between the opening and the first later fence, with the
   * white space at its ends removed.
   */
  function FencedInterior(t: JsStr): (r: Option<JsStr>)
  {
    match IndexOf(t, Fence, 0, false)
    case None => None
    case Some(i) =>
      var a := i + 3;
      var b := if AtFold(t, a, JsonTag) then a + 4 else a;
      var c := b + Run(Space, t, b);
      match IndexOf(t, Fence, c, false)
      case None => None
      case Some(q) => Some(TrimEnd(t[c..q]))
  }

  /** The text the braces are looked for in: the fenced interior if there is one, else the trimmed reply. */
  function Candidate(raw: JsStr): JsStr
  {
    var t := Trim(raw);
    match FencedInterior(t)
    case Some(g) => g
    case None => t
  }

  /**
   * `candidate.slice(start, end + 1)` with `start` the first `{` and `end`
   * the last `}`, or None where either is missing and `safeJsonParse`
   * throws. When the last `}` comes before the first `{` the slice is empty.
   */
  function BraceSlice(c: JsStr): (r: Option<JsStr>)
    ensures r.None? <==> LBRACE !in c || RBRACE !in c
    ensures r.Some? && r.value != [] ==> r.value[0] == LBRACE && r.value[|r.value| - 1] == RBRACE
  {
    match (IndexOfUnit(c, LBRACE, 0), LastIndexOfUnit(c, RBRACE))
    case (Some(s), Some(e)) =>
      assert c[s] in c && c[e] in c;
      Some(if s <= e then c[s..e + 1] else [])
    case _ => None
  }

  /** What `safeJsonParse` hands to `JSON.parse`, or None where it throws first. */
  function JsonSlice(raw: JsStr): Option<JsStr>
  {
    BraceSlice(Candidate(raw))
  }

  /**
   * The slice is fixed by where the braces are: from the first `{`
   * through the last `}`, and empty when that `}` comes first.
   */
  lemma SliceBetweenBraces(c: JsStr, s: nat, e: nat)
    requires s < |c| && c[s] == LBRACE && forall k :: 0 <= k < s ==> c[k] != LBRACE
    requires e < |c| && c[e] == RBRACE && forall k :: e < k < |c| ==> c[k] != RBRACE
    ensures BraceSlice(c) == Some(if s <= e then c[s..e + 1] else [])
  {
    var i := IndexOfUnit(c, LBRACE, 0);
    var j := LastIndexOfUnit(c, RBRACE);
    assert i == Some(s);
    assert j == Some(e);
  }

  /** A reply without a backtick has no fenced block: the braces are looked for in the whole trimmed reply. */
  lemma UnfencedCandidate(raw: JsStr)
    requires BACKTICK !in raw
    ensures Candidate(raw) == Trim(raw)
  {
    var t := Trim(raw);
    var n := |raw| - |TrimStart(raw)|;
    TrimShape(raw);
    forall k | 0 <= k
      ensures !At(t, k, Fence)
    {
      if k < |t| {
        assert t[k] == raw[n + k] != BACKTICK;
        assert k + 3 > |t| || t[k..k + 3][0] == t[k];
      }
    }
  }

  /* ---------- the fenced round trip ---------- */

  /** Trimming the start of `u + w`, where `w` starts with a non-space unit, trims only `u`. */
  lemma {:induction false} TrimStartBefore(u: JsStr, w: JsStr)
    requires |w| > 0 && !IsSpace(w[0])
    ensures TrimStart(u + w) == TrimStart(u) + w
    decreases |u|
  {
    if |u| > 0 {
      assert (u + w)[0] == u[0];
      if IsSpace(u[0]) {
        assert (u + w)[1..] == u[1..] + w;
        TrimStartBefore(u[1..], w);
      }
    } else {
      assert u + w == w;
    }
  }

  /** Trimming the end of `w + v`, where `w` ends with a non-space unit, trims only `v`. */
  lemma {:induction false} TrimEndAfter(w: JsStr, v: JsStr)
    requires |w| > 0 && !IsSpace(w[|w| - 1])
    ensures TrimEnd(w + v) == w + TrimEnd(v)
    decreases |v|
  {
    if |v| > 0 {
      assert (w + v)[|w + v| - 1] == v[|v| - 1];
      if IsSpace(v[|v| - 1]) {
        assert (w + v)[..|w + v| - 1] == w + v[..|v| - 1];
        TrimEndAfter(w, v[..|v| - 1]);
      }
    } else {
      assert w + v == w;
    }
  }

  /** Trimming text whose middle starts and ends with non-space units trims only the outer parts. */
  lemma TrimAround(u: JsStr, m: JsStr, v: JsStr)
    requires |m| > 0 && !IsSpace(m[0]) && !IsSpace(m[|m| - 1])
    ensures Trim(u + m + v) == TrimStart(u) + m + TrimEnd(v)
  {
    var x := u + m + v;
    var a := TrimStart(u);
    assert TrimStart(x) == (a + m) + v by {
      Assoc(u, m, v);
      TrimStartBefore(u, m + v);
      Assoc(a, m, v);
    }
    assert TrimEnd((a + m) + v) == (a + m) + TrimEnd(v) by {
      assert (a + m)[|a + m| - 1] == m[|m| - 1];
      TrimEndAfter(a + m, v);
    }
  }

  lemma Assoc(a: JsStr, b: JsStr, c: JsStr)
    ensures a + (b + c) == (a + b) + c
  {
  }

  /** `doc` followed by a line feed loses just the line feed to trimming, when it ends with a non-space unit. */
  lemma TrimEndNewline(doc: JsStr)
    requires |doc| > 0 && !IsSpace(doc[|doc| - 1])
    ensures TrimEnd(doc + [NL]) == doc
  {
    TrimEndAfter(doc, [NL]);
    assert TrimEnd([NL]) == TrimEnd([NL][..0]);
  }

  const OpenFence: JsStr := Fence + JsonTag + [NL]
  const CloseFence: JsStr := [NL] + Fence

  /** No three backticks in a row anywhere in `s`. */
  predicate NoFence(s: JsStr)
  {
    forall k :: 0 <= k <= |s| - 3 ==> !(s[k] == BACKTICK && s[k + 1] == BACKTICK && s[k + 2] == BACKTICK)
  }

  /**
   * A reply that wraps the document in a ```` ```json ```` block, with
   * prose before it free of backticks and any text after it, yields the
   * document exactly, when the document starts with `{`, ends with `}` and
   * holds no fence of its own.
   */
  lemma FencedRoundTrip(before: JsStr, doc: JsStr, after: JsStr)
    requires BACKTICK !in before
    requires |doc| > 0 && doc[0] == LBRACE && doc[|doc| - 1] == RBRACE && NoFence(doc)
    ensures Candidate(before + OpenFence + doc + CloseFence + after) == doc
    ensures JsonSlice(before + OpenFence + doc + CloseFence + after) == Some(doc)
  {
    FencedCandidate(before, doc, after);
    assert doc[0..|doc| - 1 + 1] == doc;
    SliceBetweenBraces(doc, 0, |doc| - 1);
  }

  /** The candidate of such a reply is the document. */
  lemma FencedCandidate(before: JsStr, doc: JsStr, after: JsStr)
    requires BACKTICK !in before
    requires |doc| > 0 && doc[0] == LBRACE && doc[|doc| - 1] == RBRACE && NoFence(doc)
    ensures Candidate(before + OpenFence + doc + CloseFence + after) == doc
  {
    var u := TrimStart(before);
    TrimFenced(before, doc, after);
    assert BACKTICK !in u by {
      TrimStartShape(before);
      assert u == before[|before| - |u|..];
    }
    FenceInT(u, doc, TrimEnd(after));
  }

  /** Trimming a fenced reply trims only the prose around the block. */
  lemma TrimFenced(before: JsStr, doc: JsStr, after: JsStr)
    ensures Trim(before + OpenFence + doc + CloseFence + after)
      == TrimStart(before) + OpenFence + doc + CloseFence + TrimEnd(after)
  {
    var m := OpenFence + doc + CloseFence;
    assert m[0] == BACKTICK && m[|m| - 1] == BACKTICK;
    assert before + OpenFence + doc + CloseFence + after == before + m + after;
    assert TrimStart(before) + m + TrimEnd(after) == TrimStart(before) + OpenFence + doc + CloseFence + TrimEnd(after);
    TrimAround(before, m, after);
  }

  /** Where the parts of a fenced reply `t` sit. */
  lemma Layout(t: JsStr, u: JsStr, doc: JsStr, v: JsStr)
    requires t == u + OpenFence + doc + CloseFence + v
    ensures |t| == |u| + 12 + |doc| + |v|
    ensures forall k :: 0 <= k < |u| ==> t[k] == u[k]
    ensures t[|u|] == BACKTICK && t[|u| + 1] == BACKTICK && t[|u| + 2] == BACKTICK
    ensures t[|u| + 3..|u| + 7] == JsonTag && t[|u| + 7] == NL
    ensures forall k :: 0 <= k < |doc| ==> t[|u| + 8 + k] == doc[k]
  {
    assert t == u + (OpenFence + (doc + (CloseFence + v)));
  }

  /** The interior of a fence opened at `p` with `json` and one white-space unit, closed at `q`. */
  lemma FenceFound(t: JsStr, p: nat, q: nat)
    requires IndexOf(t, Fence, 0, false) == Some(p)
    requires AtFold(t, p + 3, JsonTag) && p + 8 <= |t| && Run(Space, t, p + 7) == 1
    requires IndexOf(t, Fence, p + 8, false) == Some(q)
    ensures FencedInterior(t) == Some(TrimEnd(t[p + 8..q]))
  {
  }

  /** The fenced interior of the trimmed reply is the document. */
  lemma FenceInT(u: JsStr, doc: JsStr, v: JsStr)
    requires BACKTICK !in u
    requires |doc| > 0 && doc[0] == LBRACE && doc[|doc| - 1] == RBRACE && NoFence(doc)
    ensures FencedInterior(u + OpenFence + doc + CloseFence + v) == Some(doc)
  {
    var t := u + OpenFence + doc + CloseFence + v;
    Layout(t, u, doc, v);
    CloseLayout(t, u, doc, v);
    InteriorSlice(t, u, doc, v);
    FencedDoc(t, u, doc);
  }

  /** The same, from where the parts sit. */
  lemma FencedDoc(t: JsStr, u: JsStr, doc: JsStr)
    requires BACKTICK !in u
    requires |doc| > 0 && doc[0] == LBRACE && doc[|doc| - 1] == RBRACE && NoFence(doc)
    requires |t| >= |u| + 12 + |doc|
    requires forall k :: 0 <= k < |u| ==> t[k] == u[k]
    requires t[|u|] == BACKTICK && t[|u| + 1] == BACKTICK && t[|u| + 2] == BACKTICK
    requires t[|u| + 3..|u| + 7] == JsonTag && t[|u| + 7] == NL
    requires forall k :: 0 <= k < |doc| ==> t[|u| + 8 + k] == doc[k]
    requires t[|u| + 8 + |doc|] == NL
    requires t[|u| + 9 + |doc|..|u| + 12 + |doc|] == Fence
    requires t[|u| + 8..|u| + 9 + |doc|] == doc + [NL]
    ensures FencedInterior(t) == Some(doc)
  {
    OpeningFenceAt(t, u, doc);
    NextFence(t, |u| + 8, doc);
    FenceInterior(t, |u|, doc);
  }

  /** A fence opened at `p` whose interior is the document and a line feed yields the document. */
  lemma FenceInterior(t: JsStr, p: nat, doc: JsStr)
    requires |doc| > 0 && doc[|doc| - 1] == RBRACE
    requires IndexOf(t, Fence, 0, false) == Some(p)
    requires AtFold(t, p + 3, JsonTag) && p + 8 <= |t| && Run(Space, t, p + 7) == 1
    requires IndexOf(t, Fence, p + 8, false) == Some(p + 9 + |doc|)
    requires p + 9 + |doc| <= |t| && t[p + 8..p + 9 + |doc|] == doc + [NL]
    ensures FencedInterior(t) == Some(doc)
  {
    FenceFound(t, p, p + 9 + |doc|);
    TrimEndNewline(doc);
  }

  /** Between the opening line and the closing fence lie the document and one line feed. */
  lemma InteriorSlice(t: JsStr, u: JsStr, doc: JsStr, v: JsStr)
    requires t == u + OpenFence + doc + CloseFence + v
    ensures |u| + 9 + |doc| <= |t| && t[|u| + 8..|u| + 9 + |doc|] == doc + [NL]
  {
    assert t == (u + OpenFence) + (doc + [NL]) + (Fence + v);
  }

  /** The first fence of the reply is the opening one, followed by `json` and one line feed. */
  lemma OpeningFenceAt(t: JsStr, u: JsStr, doc: JsStr)
    requires BACKTICK !in u
    requires |doc| > 0 && doc[0] == LBRACE
    requires |t| >= |u| + 12 + |doc|
    requires forall k :: 0 <= k < |u| ==> t[k] == u[k]
    requires t[|u|] == BACKTICK && t[|u| + 1] == BACKTICK && t[|u| + 2] == BACKTICK
    requires t[|u| + 3..|u| + 7] == JsonTag && t[|u| + 7] == NL
    requires forall k :: 0 <= k < |doc| ==> t[|u| + 8 + k] == doc[k]
    ensures IndexOf(t, Fence, 0, false) == Some(|u|)
    ensures AtFold(t, |u| + 3, JsonTag) && |u| + 8 <= |t| && Run(Space, t, |u| + 7) == 1
  {
    var p := |u|;
    assert IndexOf(t, Fence, 0, false) == Some(p) by {
      AtFence(t, p);
      forall k | 0 <= k < p
        ensures !At(t, k, Fence)
      {
        AtFence(t, k);
        assert t[k] == u[k] && t[k] != BACKTICK;
      }
      IndexOfFirst(t, Fence, 0, false, p);
    }
    assert AtFold(t, p + 3, JsonTag) by {
      forall j | 0 <= j < 4
        ensures EqFold(t[p + 3 + j], JsonTag[j])
      {
        assert t[p + 3 + j] == t[p + 3..p + 7][j];
      }
    }
    assert Run(Space, t, p + 7) == 1 by {
      assert t[p + 8 + 0] == doc[0];
      assert Run(Space, t, p + 8) == 0;
    }
  }

  /** Where the document and the closing fence sit. */
  lemma CloseLayout(t: JsStr, u: JsStr, doc: JsStr, v: JsStr)
    requires t == u + OpenFence + doc + CloseFence + v
    ensures |u| + 12 + |doc| <= |t|
    ensures forall k :: 0 <= k < |doc| ==> t[|u| + 8 + k] == doc[k]
    ensures t[|u| + 8 + |doc|] == NL
    ensures t[|u| + 9 + |doc|..|u| + 12 + |doc|] == Fence
  {
    assert t == (u + OpenFence) + doc + ([NL] + Fence + v);
  }

  /** Three backticks start at `k`. */
  lemma AtFence(t: JsStr, k: nat)
    ensures At(t, k, Fence) <==> k + 3 <= |t| && t[k] == BACKTICK && t[k + 1] == BACKTICK && t[k + 2] == BACKTICK
  {
    if k + 3 <= |t| {
      assert t[k..k + 3][0] == t[k] && t[k..k + 3][1] == t[k + 1] && t[k..k + 3][2] == t[k + 2];
    }
  }

  /** After the document's first unit, the next fence is the one past the line feed that follows it. */
  lemma NextFence(t: JsStr, c: nat, doc: JsStr)
    requires c + |doc| + 4 <= |t| && NoFence(doc)
    requires forall k :: 0 <= k < |doc| ==> t[c + k] == doc[k]
    requires t[c + |doc|] == NL && t[c + |doc| + 1..c + |doc| + 4] == Fence
    ensures IndexOf(t, Fence, c, false) == Some(c + |doc| + 1)
  {
    var q := c + |doc| + 1;
    forall k | c <= k < q
      ensures !At(t, k, Fence)
    {
      AtFence(t, k);
      if k + 2 < c + |doc| {
        assert doc[k - c] == t[k] && doc[k - c + 1] == t[k + 1] && doc[k - c + 2] == t[k + 2];
      } else {
        assert t[k] == NL || t[k + 1] == NL || t[k + 2] == NL;
      }
    }
    IndexOfFirst(t, Fence, c, false, q);
  }
}
