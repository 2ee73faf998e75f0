/**
 * `validateAnalysis`: the shallow shape check the server runs on the
 * parsed model output before returning it. The checks run in a fixed
 * order and the first that fails names the problem; the empty string
 * means the value passed.
 */
module Validate {
  import opened Wrappers
  import opened JsText
  import opened Json

  /**
   * What a call of the validator does: return a message (empty when the
   * value passed), or throw, which happens when a phase is `null` and
   * `phase.title` is read from it.
   */
  datatype Verdict = Returned(message: JsStr) | Threw

  const CoreClaim: JsStr := Lit("core_claim")
  const VerdictKey: JsStr := Lit("verdict")
  const Strongest: JsStr := Lit("strongest")
  const Weakest: JsStr := Lit("weakest")
  const Phases: JsStr := Lit("phases")
  const Title: JsStr := Lit("title")
  const Id: JsStr := Lit("id")
  const Nodes: JsStr := Lit("nodes")
  const Connectors: JsStr := Lit("connectors")

  const NotObject: JsStr := Lit("AI response is not a JSON object")
  const MissingCoreClaim: JsStr := Lit("Missing core_claim")
  const BadVerdict: JsStr := Lit("Missing or invalid verdict")
  const VerdictIncomplete: JsStr := Lit("Verdict missing strongest/weakest")
  const MissingPhases: JsStr := Lit("Missing phases")

  /** `'Phase ' + phase.id + what`. */
  function PhaseMessage(phase: Json, what: JsStr): (m: JsStr)
    ensures |m| > 0
  {
    Lit("Phase ") + ToJsString(Get(phase, Id)) + what
  }

  /* ---------- the declarative shape ---------- */

  /** A non-empty array value. */
  predicate NonEmptyArray(o: Option<Json>)
  {
    IsArray(o) && |o.value.elems| > 0
  }

  /** A phase with a truthy title, at least one node and a (possibly empty) connector array. */
  predicate PhaseShaped(p: Json)
  {
    p.JObject? && Truthy(Get(p, Title)) && NonEmptyArray(Get(p, Nodes)) && IsArray(Get(p, Connectors))
  }

  /** `verdict && typeof verdict === 'object'`: an array or an object. */
  predicate VerdictObject(o: Option<Json>)
  {
    o.Some? && (o.value.JObject? || o.value.JArray?)
  }

  predicate VerdictShaped(o: Option<Json>)
  {
    o.Some? && (o.value.JObject? || o.value.JArray?)
    && Truthy(Get(o.value, Strongest)) && Truthy(Get(o.value, Weakest))
  }

  /** Everything the validator insists on, stated without regard to order. */
  predicate Shaped(v: Json)
  {
    && v.JObject?
    && Truthy(Get(v, CoreClaim))
    && VerdictShaped(Get(v, VerdictKey))
    && NonEmptyArray(Get(v, Phases))
    && forall i :: 0 <= i < |Get(v, Phases).value.elems| ==> PhaseShaped(Get(v, Phases).value.elems[i])
  }

  /* ---------- the validator ---------- */

  /**
   * The three checks of one loop iteration, in order: a title, then a
   * non-empty node array, then a connector array; the first that fails
   * names the problem.
   */
  function PhaseVerdict(p: Json): (r: Verdict)
    ensures r == Returned([]) <==> PhaseShaped(p)
    ensures r == Threw <==> p.JNull?
    ensures !p.JNull? && !Truthy(Get(p, Title)) ==> r == Returned(PhaseMessage(p, Lit(" missing title")))
    ensures !p.JNull? && Truthy(Get(p, Title)) && !NonEmptyArray(Get(p, Nodes)) ==>
      r == Returned(PhaseMessage(p, Lit(" has no nodes")))
    ensures !p.JNull? && Truthy(Get(p, Title)) && NonEmptyArray(Get(p, Nodes)) && !IsArray(Get(p, Connectors)) ==>
      r == Returned(PhaseMessage(p, Lit(" missing connectors")))
  {
    if p.JNull? then Threw
    else if !Truthy(Get(p, Title)) then Returned(PhaseMessage(p, Lit(" missing title")))
    else if !NonEmptyArray(Get(p, Nodes)) then Returned(PhaseMessage(p, Lit(" has no nodes")))
    else if !IsArray(Get(p, Connectors)) then Returned(PhaseMessage(p, Lit(" missing connectors")))
    else Returned([])
  }

  /** The loop over the phases: the first phase that fails decides. */
  function CheckPhases(ps: seq<Json>): Verdict
  {
    if |ps| == 0 then Returned([])
    else if PhaseVerdict(ps[0]) != Returned([]) then PhaseVerdict(ps[0])
    else CheckPhases(ps[1..])
  }

  /**
   * `validateAnalysis(parsed)`. It returns the empty string exactly when
   * the value has the shape `Shaped` describes; any other returned message
   * is non-empty, so the caller's `if (validationError)` sees it; and it
   * throws only when a phase is null.
   */
  function ValidateAnalysis(v: Json): (r: Verdict)
    ensures r == Returned([]) <==> Shaped(v)
    ensures r.Returned? && r.message != [] <==> !Shaped(v) && r != Threw
    ensures !(v.JObject? || v.JArray?) ==> r == Returned(NotObject)
    ensures (v.JObject? || v.JArray?) && !Truthy(Get(v, CoreClaim)) ==> r == Returned(MissingCoreClaim)
    ensures v.JObject? && Truthy(Get(v, CoreClaim)) && !VerdictObject(Get(v, VerdictKey)) ==> r == Returned(BadVerdict)
    ensures v.JObject? && Truthy(Get(v, CoreClaim)) && VerdictObject(Get(v, VerdictKey)) && !VerdictShaped(Get(v, VerdictKey))
      ==> r == Returned(VerdictIncomplete)
    ensures v.JObject? && Truthy(Get(v, CoreClaim)) && VerdictShaped(Get(v, VerdictKey)) && !NonEmptyArray(Get(v, Phases))
      ==> r == Returned(MissingPhases)
  {
    if !(v.JObject? || v.JArray?) then Returned(NotObject)
    else if !Truthy(Get(v, CoreClaim)) then Returned(MissingCoreClaim)
    else if !(Truthy(Get(v, VerdictKey)) && IsObjectType(Get(v, VerdictKey).value)) then Returned(BadVerdict)
    else if !Truthy(Get(Get(v, VerdictKey).value, Strongest)) || !Truthy(Get(Get(v, VerdictKey).value, Weakest))
    then Returned(VerdictIncomplete)
    else if !NonEmptyArray(Get(v, Phases)) then Returned(MissingPhases)
    else
      var ps := Get(v, Phases).value.elems;
      CheckPhasesPass(ps);
      CheckPhasesMessage(ps);
      CheckPhases(ps)
  }

  /** The loop passes exactly when every phase is well shaped. */
  lemma {:induction false} CheckPhasesPass(ps: seq<Json>)
    ensures CheckPhases(ps) == Returned([]) <==> forall i :: 0 <= i < |ps| ==> PhaseShaped(ps[i])
  {
    if |ps| > 0 {
      CheckPhasesPass(ps[1..]);
      if forall i :: 1 <= i < |ps| ==> PhaseShaped(ps[i]) {
        assert forall i :: 0 <= i < |ps| - 1 ==> PhaseShaped(ps[1..][i]);
      }
      if forall i :: 0 <= i < |ps| - 1 ==> PhaseShaped(ps[1..][i]) {
        forall i | 1 <= i < |ps|
          ensures PhaseShaped(ps[i])
        {
          assert ps[i] == ps[1..][i - 1];
        }
      }
    }
  }

  /** A message that comes out of the loop is never empty. */
  lemma {:induction false} CheckPhasesMessage(ps: seq<Json>)
    ensures CheckPhases(ps).Returned? && CheckPhases(ps) != Returned([]) ==> |CheckPhases(ps).message| > 0
  {
    if |ps| > 0 && PhaseVerdict(ps[0]) == Returned([]) {
      CheckPhasesMessage(ps[1..]);
    }
  }

  /**
   * Phases are scanned in order: when phase `k` is the first one that is
   * not well shaped, the loop's outcome is that phase's, whatever the
   * phases after it hold.
   */
  lemma {:induction false} FirstFailingPhase(ps: seq<Json>, k: nat)
    requires k < |ps| && !PhaseShaped(ps[k])
    requires forall i :: 0 <= i < k ==> PhaseShaped(ps[i])
    ensures CheckPhases(ps) == PhaseVerdict(ps[k])
  {
    if k > 0 {
      assert PhaseShaped(ps[0]);
      FirstFailingPhase(ps[1..], k - 1);
    }
  }

  /**
   * Once the top-level checks pass, the first phase that is not well shaped
   * decides the validator's outcome, whatever the phases after it hold.
   */
  lemma PhasesDecide(v: Json, k: nat)
    requires v.JObject? && Truthy(Get(v, CoreClaim)) && VerdictShaped(Get(v, VerdictKey))
    requires NonEmptyArray(Get(v, Phases))
    requires k < |Get(v, Phases).value.elems| && !PhaseShaped(Get(v, Phases).value.elems[k])
    requires forall i :: 0 <= i < k ==> PhaseShaped(Get(v, Phases).value.elems[i])
    ensures ValidateAnalysis(v) == PhaseVerdict(Get(v, Phases).value.elems[k])
  {
    FirstFailingPhase(Get(v, Phases).value.elems, k);
  }

  /** A null phase after well-shaped ones makes the validator throw rather than return. */
  lemma NullPhaseThrows(v: Json, k: nat)
    requires v.JObject? && Truthy(Get(v, CoreClaim)) && VerdictShaped(Get(v, VerdictKey))
    requires NonEmptyArray(Get(v, Phases))
    requires k < |Get(v, Phases).value.elems| && Get(v, Phases).value.elems[k].JNull?
    requires forall i :: 0 <= i < k ==> PhaseShaped(Get(v, Phases).value.elems[i])
    ensures ValidateAnalysis(v) == Threw
  {
    PhasesDecide(v, k);
  }
}
