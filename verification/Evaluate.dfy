/** Evaluation: facts in, verdicts out. */
module Evaluate {
  import opened Text
  import opened Json
  import opened Contract
  import opened Registry

  const SECONDS_PER_HOUR := 3600
  const SECONDS_PER_DAY := 86400

  datatype Subject = Subject(assetId: string, uuid: string, platform: string)

  /** Times are in seconds. */
  datatype FactBundle = FactBundle(subject: Subject, facts: map<string, Fact<Json>>, collected: int) {
    /** `require`: the first thing wrong with the facts a check needs, if anything is. */
    function Require(keys: seq<string>): (r: Option<Reason>)
      ensures r.None? <==> forall k :: k in keys ==> k in facts && !facts[k].partial
      ensures r == Some(CollectionError) <==> exists k :: k in keys && k !in facts
    {
      if exists k | k in keys :: k !in facts then Some(CollectionError)
      else if exists k | k in keys :: facts[k].partial then Some(PartialPopulation)
      else None
    }
  }

  /** The collection times of the prior bundles of a subject, oldest first. */
  datatype History = History(times: seq<int>) {
    predicate Valid() {
      forall i, j :: 0 <= i < j < |times| ==> times[i] <= times[j]
    }

    predicate Spans(days: int) {
      days <= 0 || (times != [] && times[|times| - 1] - times[0] >= days * SECONDS_PER_DAY)
    }
  }

  datatype Evaluation = Evaluation(check: Check, subject: Subject, result: CheckResult, collected: int, expires: int) {
    function Status(): Status {
      result.status
    }
  }

  /** What running an evaluator may come to: a result, or an exception of any kind. */
  datatype Outcome = Returned(result: CheckResult) | Raised

  type Evaluator = (Check, FactBundle, History) -> Outcome

  /** `evaluate_check`: three guards, then the evaluator, then the registry's ceiling. */
  function EvaluateCheck(check: Check, bundle: FactBundle, history: History, run: Evaluator): Evaluation {
    var unlimited :=
      if !check.IsAutomated() then UnassessedFor(RequiresAttestation, [])
      else
        var guard := bundle.Require(check.requiredFacts);
        if guard.Some? then UnassessedFor(guard.value, [])
        else if check.historyWindowDays != 0 && !history.Spans(check.historyWindowDays)
        then UnassessedFor(InsufficientHistory, [])
        else match run(check, bundle, history)
             case Returned(result) => result
             case Raised => Failed();
    Evaluation(check, bundle.subject, unlimited.WithCeiling(check.confidence), bundle.collected,
               bundle.collected + check.freshnessHours * SECONDS_PER_HOUR)
  }

  /** A check of another platform family has nothing to say about a subject that names its own. */
  predicate MatchesPlatform(check: Check, subject: Subject) {
    var platform := Strip(subject.platform);
    platform == "" || check.platform == "common" || check.platform == platform
  }

  predicate InBaseline(check: Check, baseline: Option<seq<string>>) {
    baseline.None? || exists b | b in check.controls :: b.controlId in baseline.value
  }

  /** Whether a check is run against a bundle at all. */
  predicate Applies(check: Check, bundle: FactBundle, baseline: Option<seq<string>>) {
    check.IsAutomated() && MatchesPlatform(check, bundle.subject) && InBaseline(check, baseline)
  }

  function Evaluations(registry: Registry, bundle: FactBundle, baseline: Option<seq<string>>, history: History,
                       run: Evaluator)
    : seq<Evaluation>
  {
    if registry == [] then []
    else
      var n := |registry| - 1;
      Evaluations(registry[..n], bundle, baseline, history, run)
      + if Applies(registry[n], bundle, baseline) then [EvaluateCheck(registry[n], bundle, history, run)] else []
  }

  /** `evaluate_bundle`. */
  method EvaluateBundle(registry: Registry, bundle: FactBundle, baseline: Option<seq<string>>, history: History,
                        run: Evaluator)
    returns (evaluations: seq<Evaluation>)
    ensures evaluations == Evaluations(registry, bundle, baseline, history, run)
  {
    evaluations := [];
    for i := 0 to |registry|
      invariant evaluations == Evaluations(registry[..i], bundle, baseline, history, run)
    {
      assert registry[..i + 1][..i] == registry[..i];
      var check := registry[i];
      if !check.IsAutomated() { continue; }
      if !MatchesPlatform(check, bundle.subject) { continue; }
      if !InBaseline(check, baseline) { continue; }
      evaluations := evaluations + [EvaluateCheck(check, bundle, history, run)];
    }
    assert registry[..|registry|] == registry;
  }

  // ----- what was not determined -----------------------------------------------------

  /** Some evaluation reached a verdict on the control. */
  predicate Determined(evs: seq<Evaluation>, control: string) {
    exists ev | ev in evs :: ev.Status().EmitsFinding() && ev.check.Binds(control)
  }

  /** The reasons recorded by the evaluations bound to a control, in order. */
  function ReasonsFor(evs: seq<Evaluation>, control: string): seq<Reason> {
    if evs == [] then []
    else
      (if evs[0].check.Binds(control) && evs[0].result.reason.Some? then [evs[0].result.reason.value] else [])
      + ReasonsFor(evs[1..], control)
  }

  /** Why a control that was not determined was not. */
  function WhyUndetermined(registry: Registry, evs: seq<Evaluation>, control: string): Reason {
    if control in AttestedControls(registry) && control !in AutomatedControls(registry) then RequiresAttestation
    else if control !in AutomatedControls(registry) then NotImplemented
    else if !exists ev | ev in evs :: ev.check.Binds(control) then NoSubjectInScope
    else
      var reasons := ReasonsFor(evs, control);
      if reasons != [] then reasons[0] else EvaluationError
  }

  function WithoutVerdict(baseline: seq<string>, registry: Registry, evs: seq<Evaluation>): map<string, Reason> {
    map c | c in baseline && !Determined(evs, c) :: WhyUndetermined(registry, evs, c)
  }

  lemma WithoutVerdictNext(baseline: seq<string>, c: string, registry: Registry, evs: seq<Evaluation>)
    ensures var before, after := WithoutVerdict(baseline, registry, evs), WithoutVerdict(baseline + [c], registry, evs);
            after == if Determined(evs, c) then before else before[c := WhyUndetermined(registry, evs, c)]
  {
  }

  /** The controls some evaluation reached a verdict on. */
  function DeterminedControls(evs: seq<Evaluation>): set<string> {
    set ev, b | ev in evs && ev.Status().EmitsFinding() && b in ev.check.controls :: b.controlId
  }

  lemma DeterminedControlsExact(evs: seq<Evaluation>, control: string)
    ensures control in DeterminedControls(evs) <==> Determined(evs, control)
  {
    if Determined(evs, control) {
      var ev :| ev in evs && ev.Status().EmitsFinding() && ev.check.Binds(control);
      var b :| b in ev.check.controls && b.controlId == control;
    }
  }

  /** `unassessed_controls`: every control of the baseline without a verdict, and why. */
  method UnassessedControls(baseline: seq<string>, registry: Registry,
                            evs: seq<Evaluation>) returns (out: map<string, Reason>)
    ensures out == WithoutVerdict(baseline, registry, evs)
  {
    var determined := DeterminedControls(evs);
    var attempted, attested := AutomatedControls(registry), AttestedControls(registry);
    out := map[];
    for i := 0 to |baseline|
      invariant out == WithoutVerdict(baseline[..i], registry, evs)
    {
      var control := baseline[i];
      assert baseline[..i + 1] == baseline[..i] + [control];
      WithoutVerdictNext(baseline[..i], control, registry, evs);
      DeterminedControlsExact(evs, control);
      if control in determined { continue; }
      if control in attested && control !in attempted {
        out := out[control := RequiresAttestation];
      } else if control !in attempted {
        out := out[control := NotImplemented];
      } else if !(exists ev | ev in evs :: ev.check.Binds(control)) {
        out := out[control := NoSubjectInScope];
      } else {
        var reasons := ReasonsFor(evs, control);
        out := out[control := if reasons != [] then reasons[0] else EvaluationError];
      }
    }
    assert baseline[..|baseline|] == baseline;
  }
}
