/** What the evaluation guards hold, for every evaluator, including one that raises. */
module EvaluateTheorems {
  import opened Text
  import opened Blanks
  import opened Json
  import opened Contract
  import opened Registry
  import opened Evaluate

  /** History covers a window exactly when two of its bundles lie that far apart. */
  lemma SpansExact(h: History, days: int)
    requires h.Valid()
    ensures h.Spans(days) <==>
            days <= 0 || exists i, j :: 0 <= i < |h.times| && 0 <= j < |h.times|
                                        && h.times[j] - h.times[i] >= 86400 * days
  {
    if h.times != [] {
      var last := |h.times| - 1;
      assert h.Spans(days) && days > 0 ==> h.times[last] - h.times[0] >= 86400 * days;
      assert forall i :: 0 <= i <= last ==> h.times[0] <= h.times[i] <= h.times[last];
    }
  }

  /** The evaluator was reached: an automated check, its facts present and complete, its window covered. */
  predicate GuardsPass(check: Check, bundle: FactBundle, history: History) {
    && check.IsAutomated()
    && (forall k :: k in check.requiredFacts ==> k in bundle.facts && !bundle.facts[k].partial)
    && (check.historyWindowDays == 0 || history.Spans(check.historyWindowDays))
  }

  /** A verdict is only ever the evaluator's own, reached through every guard; a raise or a guard yields none. */
  lemma VerdictNeedsEveryGuard(check: Check, bundle: FactBundle, history: History, run: Evaluator)
    ensures var ev := EvaluateCheck(check, bundle, history, run);
            ev.Status().EmitsFinding() <==>
              && GuardsPass(check, bundle, history)
              && run(check, bundle, history).Returned?
              && run(check, bundle, history).result.status == ev.Status()
              && run(check, bundle, history).result.status.EmitsFinding()
  {
  }

  /** What each way of not reaching a verdict is called. */
  lemma WhyNoVerdict(check: Check, bundle: FactBundle, history: History, run: Evaluator)
    ensures var r := EvaluateCheck(check, bundle, history, run).result;
            && (!check.IsAutomated() ==> r == UnassessedFor(RequiresAttestation, []))
            && (check.IsAutomated() && (exists k :: k in check.requiredFacts && k !in bundle.facts) ==>
                  r == UnassessedFor(CollectionError, []))
            && (check.IsAutomated() && (forall k :: k in check.requiredFacts ==> k in bundle.facts)
                && (exists k :: k in check.requiredFacts && bundle.facts[k].partial) ==>
                  r == UnassessedFor(PartialPopulation, []))
            && (check.IsAutomated()
                && (forall k :: k in check.requiredFacts ==> k in bundle.facts && !bundle.facts[k].partial)
                && check.historyWindowDays != 0 && !history.Spans(check.historyWindowDays) ==>
                  r == UnassessedFor(InsufficientHistory, []))
            && (GuardsPass(check, bundle, history) && run(check, bundle, history).Raised? ==> r == Failed())
  {
  }

  /** No evaluator gets past the ceiling its registry entry declares. */
  lemma CeilingHolds(check: Check, bundle: FactBundle, history: History, run: Evaluator)
    ensures var r := EvaluateCheck(check, bundle, history, run).result;
            r.confidence.Some? ==> r.confidence.value.Rank() >= check.confidence.Rank()
  {
  }

  /** Of two claims the weaker, from attested down to direct. */
  function WeakerOf(a: Confidence, b: Confidence): Confidence {
    if Attested in {a, b} then Attested
    else if Partial in {a, b} then Partial
    else if Proxy in {a, b} then Proxy
    else Direct
  }

  /** What an evaluator returned is passed on as it is, but for a confidence stronger than the declared one. */
  lemma ReturnedExact(check: Check, bundle: FactBundle, history: History, run: Evaluator)
    requires GuardsPass(check, bundle, history) && run(check, bundle, history).Returned?
    ensures var own, ev := run(check, bundle, history).result, EvaluateCheck(check, bundle, history, run);
            && ev.result.status == own.status && ev.result.reason == own.reason && ev.result.evidence == own.evidence
            && ev.result.confidence == (if own.confidence.None? then None
                                        else Some(WeakerOf(own.confidence.value, check.confidence)))
            && ev.check == check && ev.subject == bundle.subject && ev.collected == bundle.collected
            && ev.expires == bundle.collected + 3600 * check.freshnessHours
  {
  }

  lemma PlatformExact(check: Check, subject: Subject)
    ensures MatchesPlatform(check, subject) <==>
            || IsBlank(subject.platform) || check.platform == "common"
            || (HasBareEnds(check.platform) && IsPadded(subject.platform, check.platform))
  {
    StripExact(subject.platform, check.platform);
    BlankExact(subject.platform);
  }

  /** A check runs when a tool answers it, it is asked for, and its platform is common or that of the subject. */
  lemma AppliesExact(check: Check, bundle: FactBundle, baseline: Option<seq<string>>)
    ensures Applies(check, bundle, baseline) <==>
            && check.assessability.Automated?
            && (|| IsBlank(bundle.subject.platform) || check.platform == "common"
                || (HasBareEnds(check.platform) && IsPadded(bundle.subject.platform, check.platform)))
            && (baseline.None?
                || exists b, c :: b in check.controls && c in baseline.value && b.controlId == c)
  {
    PlatformExact(check, bundle.subject);
  }

  /** Every evaluation of a run over a list of bundles, in order. */
  function RunAll(registry: Registry, bundles: seq<FactBundle>, baseline: Option<seq<string>>, history: History,
                  run: Evaluator)
    : seq<Evaluation>
  {
    if bundles == [] then []
    else RunAll(registry, bundles[..|bundles| - 1], baseline, history, run)
         + Evaluations(registry, bundles[|bundles| - 1], baseline, history, run)
  }

  lemma {:induction false} EvaluationsExact(registry: Registry, bundle: FactBundle, baseline: Option<seq<string>>,
                                            history: History, run: Evaluator, ev: Evaluation)
    ensures ev in Evaluations(registry, bundle, baseline, history, run) <==>
            exists c :: c in registry && Applies(c, bundle, baseline) && ev == EvaluateCheck(c, bundle, history, run)
  {
    if registry != [] {
      var rest, last := registry[..|registry| - 1], registry[|registry| - 1];
      assert registry == rest + [last];
      EvaluationsExact(rest, bundle, baseline, history, run, ev);
    }
  }

  /** A run holds exactly the evaluations of the applicable checks against its bundles. */
  lemma {:induction false} RunExact(registry: Registry, bundles: seq<FactBundle>, baseline: Option<seq<string>>,
                                    history: History, run: Evaluator, ev: Evaluation)
    ensures ev in RunAll(registry, bundles, baseline, history, run) <==>
            exists c, b :: c in registry && b in bundles && Applies(c, b, baseline)
                           && ev == EvaluateCheck(c, b, history, run)
  {
    if bundles != [] {
      var rest, last := bundles[..|bundles| - 1], bundles[|bundles| - 1];
      assert bundles == rest + [last];
      RunExact(registry, rest, baseline, history, run, ev);
      EvaluationsExact(registry, last, baseline, history, run, ev);
    }
  }

  /**
   A run decides a control only by a check bound to it that passed every guard on some bundle and returned a
   verdict.
   */
  lemma DeterminedNeedsGuards(registry: Registry, bundles: seq<FactBundle>, baseline: Option<seq<string>>,
                              history: History,
                              run: Evaluator, control: string)
    requires Determined(RunAll(registry, bundles, baseline, history, run), control)
    ensures control in AutomatedControls(registry)
    ensures exists c, b :: && c in registry && b in bundles && Applies(c, b, baseline) && c.Binds(control)
                           && GuardsPass(c, b, history)
                           && run(c, b, history).Returned? && run(c, b, history).result.status.EmitsFinding()
  {
    var evs := RunAll(registry, bundles, baseline, history, run);
    var ev :| ev in evs && ev.Status().EmitsFinding() && ev.check.Binds(control);
    RunExact(registry, bundles, baseline, history, run, ev);
    var c, b :| c in registry && b in bundles && Applies(c, b, baseline) && ev == EvaluateCheck(c, b, history, run);
    VerdictNeedsEveryGuard(c, b, history, run);
    var bound :| bound in c.controls && bound.controlId == control;
  }

  // ----- the reason given -----------------------------------------------------------------

  lemma {:induction false} FirstReason(evs: seq<Evaluation>, control: string)
    ensures var rs := ReasonsFor(evs, control);
            if rs == [] then forall ev :: ev in evs && ev.check.Binds(control) ==> ev.result.reason.None?
            else exists i :: && 0 <= i < |evs| && evs[i].check.Binds(control) && evs[i].result.reason == Some(rs[0])
                             && forall j :: 0 <= j < i && evs[j].check.Binds(control) ==> evs[j].result.reason.None?
  {
    if evs != [] {
      FirstReason(evs[1..], control);
      var rs := ReasonsFor(evs, control);
      if evs[0].check.Binds(control) && evs[0].result.reason.Some? {
        assert rs[0] == evs[0].result.reason.value;
      } else if rs != [] {
        var i :| && 0 <= i < |evs[1..]| && evs[1..][i].check.Binds(control) && evs[1..][i].result.reason == Some(rs[0])
                 && forall j :: 0 <= j < i && evs[1..][j].check.Binds(control) ==> evs[1..][j].result.reason.None?;
        assert evs[i + 1].check.Binds(control);
      }
    }
  }

  /** The evaluation at `i` is the first bound to the control that recorded a reason, and this is it. */
  ghost predicate RecordsFirst(evs: seq<Evaluation>, control: string, i: nat, why: Reason) {
    && i < |evs| && evs[i].check.Binds(control) && evs[i].result.reason == Some(why)
    && forall j :: 0 <= j < i && evs[j].check.Binds(control) ==> evs[j].result.reason.None?
  }

  /** Undetermined controls are told apart: unattended by design, never built, out of scope, or tried and why not. */
  lemma ReasonsAreDistinguished(registry: Registry, evs: seq<Evaluation>, control: string)
    ensures var why := WhyUndetermined(registry, evs, control);
            && (control !in AutomatedControls(registry) ==>
                  why == if control in AttestedControls(registry) then RequiresAttestation else NotImplemented)
            && (control in AutomatedControls(registry) && (forall ev :: ev in evs ==> !ev.check.Binds(control)) ==>
                  why == NoSubjectInScope)
            && (control in AutomatedControls(registry) && (exists ev :: ev in evs && ev.check.Binds(control)) ==>
                  || (exists i :: RecordsFirst(evs, control, i, why))
                  || (why == EvaluationError && forall ev :: ev in evs && ev.check.Binds(control) ==>
                      ev.result.reason.None?))
  {
    FirstReason(evs, control);
    var rs := ReasonsFor(evs, control);
    if rs != [] {
      var i :| && 0 <= i < |evs| && evs[i].check.Binds(control) && evs[i].result.reason == Some(rs[0])
               && forall j :: 0 <= j < i && evs[j].check.Binds(control) ==> evs[j].result.reason.None?;
      assert RecordsFirst(evs, control, i, rs[0]);
    }
  }
}
