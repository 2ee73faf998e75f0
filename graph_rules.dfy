/**
 * The structural rules the analysis instructions ask the model to follow.
 * Nothing on the server enforces them: `ValidateAnalysis` checks only the
 * shallow shape, and `ValidatorIgnoresGraphRules` exhibits a value it
 * accepts that breaks these rules under either size tier.
 */
module GraphRules {
  import opened Wrappers
  import opened JsText
  import opened Json
  import opened Tiers
  import opened Validate

  const NodeTypes: seq<JsStr> := [Lit("origin"), Lit("setup"), Lit("reasoning"), Lit("turning"), Lit("conclusion")]
  const ConnectorTypes: seq<JsStr> :=
    [Lit("causal"), Lit("parallel"), Lit("rebuttal"), Lit("evidence"), Lit("self_question"), Lit("fork"), Lit("merge")]

  /** The shortest transition the instructions allow on a node that is not the last. */
  const MinTransition: nat := 20

  predicate IsStringIn(o: Option<Json>, options: seq<JsStr>)
  {
    o.Some? && o.value.JString? && o.value.s in options
  }

  predicate IsString(o: Option<Json>)
  {
    o.Some? && o.value.JString?
  }

  /** The nodes of every phase, in order; a phase without a node array contributes none. */
  function AllNodes(phases: seq<Json>): (ns: seq<Json>)
    ensures |phases| == 0 ==> ns == []
  {
    if |phases| == 0 then []
    else
      var here := Get(phases[0], Nodes);
      (if IsArray(here) then here.value.elems else []) + AllNodes(phases[1..])
  }

  /** How many of `ns` have the given `level`. */
  function CountLevel(ns: seq<Json>, level: int): (n: nat)
    ensures n <= |ns|
  {
    if |ns| == 0 then 0
    else (if Get(ns[0], Lit("level")) == Some(JNumber(level)) then 1 else 0) + CountLevel(ns[1..], level)
  }

  /**
   * One node: a known type, level 1 or 2, non-empty evidence, and a
   * transition that is null on the very last node and a string of at
   * least 20 units on every other.
   */
  predicate NodeOk(n: Json, isLast: bool)
  {
    && n.JObject?
    && IsStringIn(Get(n, Lit("type")), NodeTypes)
    && (Get(n, Lit("level")) == Some(JNumber(1)) || Get(n, Lit("level")) == Some(JNumber(2)))
    && IsString(Get(n, Lit("evidence"))) && |Get(n, Lit("evidence")).value.s| > 0
    && (if isLast then Get(n, Lit("transition")) == Some(JNull)
        else IsString(Get(n, Lit("transition"))) && |Get(n, Lit("transition")).value.s| >= MinTransition)
  }

  /** A fork goes from one id to an array of ids, a merge the other way; any other type joins two ids. */
  predicate ConnectorOk(c: Json)
  {
    && c.JObject?
    && IsStringIn(Get(c, Lit("type")), ConnectorTypes)
    && var kind := Get(c, Lit("type")).value.s;
       var from := Get(c, Lit("from"));
       var to := Get(c, Lit("to"));
       if kind == Lit("fork") then IsString(from) && IsArray(to)
       else if kind == Lit("merge") then IsArray(from) && IsString(to)
       else IsString(from) && IsString(to)
  }

  predicate PhaseConnectorsOk(p: Json)
  {
    IsArray(Get(p, Connectors))
    && forall j :: 0 <= j < |Get(p, Connectors).value.elems| ==> ConnectorOk(Get(p, Connectors).value.elems[j])
  }

  /** The graph rules for the given tier's bounds. */
  predicate WellFormedGraph(v: Json, t: Tier)
  {
    && Shaped(v)
    && var ps := Get(v, Phases).value.elems;
       var ns := AllNodes(ps);
       && t.phaseMin <= |ps| <= t.phaseMax
       && t.nodeMin <= |ns| <= t.nodeMax
       && t.mainMin <= CountLevel(ns, 1) <= t.mainMax
       && CountLevel(ns, 2) >= t.subMin
       && (forall i :: 0 <= i < |ns| ==> NodeOk(ns[i], i == |ns| - 1))
       && (forall k :: 0 <= k < |ps| ==> PhaseConnectorsOk(ps[k]))
  }

  /** Every tier asks for at least six nodes. */
  lemma WellFormedNeedsSixNodes(v: Json, n: nat)
    requires WellFormedGraph(v, TierFor(n))
    ensures |AllNodes(Get(v, Phases).value.elems)| >= 6
  {
  }

  /** The one phase of `TinyAnalysis`: a title, a single empty node and no connectors. */
  function TinyPhase(): Json
  {
    JObject([(Title, JString(Lit("t"))), (Nodes, JArray([JObject([])])), (Connectors, JArray([]))])
  }

  /** The verdict of `TinyAnalysis`: `{strongest: "s", weakest: "w"}`. */
  function TinyVerdict(): Json
  {
    JObject([(Strongest, JString(Lit("s"))), (Weakest, JString(Lit("w")))])
  }

  /** A one-phase, one-node analysis: `{core_claim, verdict: {strongest, weakest}, phases: [{title, nodes: [{}], connectors: []}]}`. */
  function TinyAnalysis(): Json
  {
    JObject([
      (CoreClaim, JString(Lit("c"))),
      (VerdictKey, TinyVerdict()),
      (Phases, JArray([TinyPhase()]))
    ])
  }

  lemma TinyPhaseShaped()
    ensures PhaseShaped(TinyPhase())
    ensures Get(TinyPhase(), Nodes) == Some(JArray([JObject([])]))
  {
    var ms := TinyPhase().members;
    assert Title[0] == U('t') && Nodes[0] == U('n') && Connectors[0] == U('c');
    GetLast(ms, Title, 0);
    GetLast(ms, Nodes, 1);
    GetLast(ms, Connectors, 2);
  }

  lemma TinyVerdictShaped()
    ensures VerdictShaped(Some(TinyVerdict()))
  {
    var vs := TinyVerdict().members;
    assert Strongest[0] == U('s') && Weakest[0] == U('w');
    GetLast(vs, Strongest, 0);
    GetLast(vs, Weakest, 1);
  }

  /** The three top-level members of `TinyAnalysis`, each found by its key. */
  lemma TinyMembers()
    ensures Get(TinyAnalysis(), CoreClaim) == Some(JString(Lit("c")))
    ensures Get(TinyAnalysis(), VerdictKey) == Some(TinyVerdict())
    ensures Get(TinyAnalysis(), Phases) == Some(JArray([TinyPhase()]))
  {
    var ms := TinyAnalysis().members;
    assert CoreClaim[0] == U('c') && VerdictKey[0] == U('v') && Phases[0] == U('p');
    GetLast(ms, CoreClaim, 0);
    GetLast(ms, VerdictKey, 1);
    GetLast(ms, Phases, 2);
  }

  lemma TinyShaped()
    ensures Shaped(TinyAnalysis())
    ensures Get(TinyAnalysis(), Phases) == Some(JArray([TinyPhase()]))
  {
    TinyMembers();
    TinyVerdictShaped();
    TinyPhaseShaped();
  }

  /**
   * The validator accepts an analysis that breaks the graph rules under
   * every size tier: it has a single node where each tier asks for six or
   * more, and that node has neither type nor evidence.
   */
  lemma ValidatorIgnoresGraphRules(n: nat)
    ensures ValidateAnalysis(TinyAnalysis()) == Returned([])
    ensures !WellFormedGraph(TinyAnalysis(), TierFor(n))
  {
    TinyShaped();
    TinyPhaseShaped();
    assert AllNodes([TinyPhase()]) == [JObject([])];
  }
}
