/** Writing plans, results and action items. */
module Emit {
  import opened Text
  import opened Lists
  import opened Json
  import opened Contract
  import opened Registry
  import opened Evaluate
  import opened Oscal
  import opened Order

  datatype Control = Control(statement: string, statementId: string)

  type Catalog = map<string, Control>

  /** What identifies a run, and how names become UUIDs. */
  datatype Run = Run(systemId: string, runId: string, baseline: string, version: string, uuid: seq<string> -> string)

  // ----- the plan -----------------------------------------------------------------------

  /** Some check can reach a verdict on the control. */
  function HasCheck(registry: Registry): string -> bool {
    c => c in AutomatedControls(registry)
  }

  function OnlyAttested(registry: Registry): string -> bool {
    c => c in AttestedControls(registry) && c !in AutomatedControls(registry)
  }

  function HasNothing(registry: Registry): string -> bool {
    c => c !in AutomatedControls(registry) && c !in AttestedControls(registry)
  }

  function Filter(cs: seq<string>, keep: string -> bool): seq<string> {
    if cs == [] then []
    else Filter(cs[..|cs| - 1], keep) + if keep(cs[|cs| - 1]) then [cs[|cs| - 1]] else []
  }

  lemma {:induction false} FilterExact(cs: seq<string>, keep: string -> bool)
    ensures forall c :: c in Filter(cs, keep) <==> c in cs && keep(c)
  {
    if cs != [] {
      var rest, last := cs[..|cs| - 1], cs[|cs| - 1];
      assert cs == rest + [last];
      FilterExact(rest, keep);
    }
  }

  lemma FilterNext(cs: seq<string>, last: string, keep: string -> bool)
    ensures Filter(cs + [last], keep) == Filter(cs, keep) + if keep(last) then [last] else []
  {
    assert (cs + [last])[..|cs|] == cs;
  }

  function IncludesOf(cs: seq<string>, catalog: Catalog): (r: seq<Include>)
    requires forall c :: c in cs ==> c in catalog
    ensures |r| == |cs| && forall i :: 0 <= i < |cs| ==> r[i].controlId == cs[i]
  {
    if cs == [] then []
    else IncludesOf(cs[..|cs| - 1], catalog) + [Include(cs[|cs| - 1], [catalog[cs[|cs| - 1]].statementId])]
  }

  const ATTESTED_PROPS := [Own("assessment-status", "requires-attestation"), Own("assessability", "attested")]
  const UNASSESSED_PROPS := [Own("assessment-status", "unassessed"), Own("unassessed-reason", "not-implemented")]

  function CheckProps(check: Check): seq<Prop> {
    [Own("check-id", check.id), Own("confidence", ConfidenceText(check.confidence))]
    + match check.assessability
      case Automated => [Own("assessability", "automated")]
      case AttestedBy(a) =>
        [Own("assessability", "attested"), Own("attestation-source", a.source), Own("attestation-owner", a.owner),
         Own("attestation-renewal-days", NatText(a.renewalDays)), Own("why-not-observable", a.whyNotObservable)]
  }

  function BindingIncludes(bs: seq<Binding>): (r: seq<Include>)
    ensures |r| == |bs| && forall i :: 0 <= i < |bs| ==> r[i].controlId == bs[i].controlId
  {
    if bs == [] then []
    else BindingIncludes(bs[..|bs| - 1]) + [Include(bs[|bs| - 1].controlId, [bs[|bs| - 1].statementId])]
  }

  function ActivityOf(check: Check): Activity {
    Activity(check.title, CheckProps(check), [Selection([], BindingIncludes(check.controls))])
  }

  /** One activity per check that bears on the baseline. */
  function Activities(registry: Registry, baseline: seq<string>): seq<Activity> {
    if registry == [] then []
    else
      var n := |registry| - 1;
      Activities(registry[..n], baseline)
      + if InBaseline(registry[n], Some(baseline)) then [ActivityOf(registry[n])] else []
  }

  /** The controls of a baseline that pass, as one selection. */
  function Selected(props: seq<Prop>, baseline: seq<string>, keep: string -> bool, catalog: Catalog): Selection
    requires forall c :: c in baseline ==> c in catalog
  {
    FilterExact(baseline, keep);
    Selection(props, IncludesOf(Filter(baseline, keep), catalog))
  }

  /** A selection that is left out when nothing passes. */
  function SelectedIfAny(props: seq<Prop>, baseline: seq<string>, keep: string -> bool,
                         catalog: Catalog): seq<Selection>
    requires forall c :: c in baseline ==> c in catalog
  {
    if Filter(baseline, keep) == [] then [] else [Selected(props, baseline, keep, catalog)]
  }

  function Reviewed(baseline: seq<string>, registry: Registry, catalog: Catalog): seq<Selection>
    requires forall c :: c in baseline ==> c in catalog
  {
    [Selected([], baseline, HasCheck(registry), catalog)]
    + SelectedIfAny(ATTESTED_PROPS, baseline, OnlyAttested(registry), catalog)
    + SelectedIfAny(UNASSESSED_PROPS, baseline, HasNothing(registry), catalog)
  }

  method EmitActivities(baseline: seq<string>, registry: Registry) returns (activities: seq<Activity>)
    ensures activities == Activities(registry, baseline)
  {
    activities := [];
    for i := 0 to |registry|
      invariant activities == Activities(registry[..i], baseline)
    {
      assert registry[..i + 1][..i] == registry[..i];
      if InBaseline(registry[i], Some(baseline)) {
        activities := activities + [ActivityOf(registry[i])];
      }
    }
    assert registry[..|registry|] == registry;
  }

  /** `emit_assessment_plan`: the whole baseline in up to three selections; an unknown control is refused. */
  method EmitPlan(baseline: seq<string>, registry: Registry, catalog: Catalog) returns (plan: Result<Plan, string>)
    ensures plan.Ok? <==> forall c :: c in baseline ==> c in catalog
    ensures plan.Ok? ==> plan.value == Plan(Activities(registry, baseline), Reviewed(baseline, registry, catalog))
  {
    if exists c | c in baseline :: c !in catalog { return Err("not in the catalog"); }
    var activities := EmitActivities(baseline, registry);
    return Ok(Plan(activities, Reviewed(baseline, registry, catalog)));
  }

  // ----- observations --------------------------------------------------------------------

  function JoinNames(names: seq<string>): string {
    if names == [] then "" else if |names| == 1 then names[0] else names[0] + "," + JoinNames(names[1..])
  }

  function ObservationUuid(run: Run, ev: Evaluation): string {
    run.uuid(["observation", run.uuid(["result", run.systemId, run.runId]), ev.check.id, ev.subject.assetId])
  }

  function ObservationOf(run: Run, ev: Evaluation): Observation {
    Observation(
      ObservationUuid(run, ev),
      ev.check.id + " - " + ev.subject.assetId,
      [Own("check-id", ev.check.id), Own("assessment-status", StatusText(ev.Status())),
       Own("catalog-version", run.version)]
      + (if ev.result.confidence.Some? then [Own("confidence", ConfidenceText(ev.result.confidence.value))] else [])
      + (if ev.result.reason.Some? then [Own("unassessed-reason", ReasonText(ev.result.reason.value))] else []),
      if ev.result.evidence != [] then [Evidence([Own("fact-keys", JoinNames(ev.result.evidence))], None)] else [])
  }

  function Observations(run: Run, evs: seq<Evaluation>): seq<Observation> {
    if evs == [] then [] else Observations(run, evs[..|evs| - 1]) + [ObservationOf(run, evs[|evs| - 1])]
  }

  // ----- findings ------------------------------------------------------------------------

  /** An evaluation once for every binding of its check to the control. */
  function Repeats(ev: Evaluation, bs: seq<Binding>, control: string): seq<Evaluation> {
    if bs == [] then []
    else Repeats(ev, bs[..|bs| - 1], control) + if bs[|bs| - 1].controlId == control then [ev] else []
  }

  lemma {:induction false} RepeatsExact(ev: Evaluation, bs: seq<Binding>, control: string)
    ensures forall e :: e in Repeats(ev, bs, control) <==> e == ev && exists b :: b in bs && b.controlId == control
  {
    if bs != [] {
      var rest, last := bs[..|bs| - 1], bs[|bs| - 1];
      assert bs == rest + [last];
      RepeatsExact(ev, rest, control);
    }
  }

  /** The evaluations that bear on a control, in order. */
  function Contributing(evs: seq<Evaluation>, control: string): (r: seq<Evaluation>)
    ensures forall e :: e in r <==> e in evs && e.check.Binds(control)
  {
    if evs == [] then []
    else
      var n := |evs| - 1;
      assert evs == evs[..n] + [evs[n]];
      RepeatsExact(evs[n], evs[n].check.controls, control);
      Contributing(evs[..n], control) + Repeats(evs[n], evs[n].check.controls, control)
  }

  function Concluded(evs: seq<Evaluation>): (r: seq<Evaluation>)
    ensures forall e :: e in r <==> e in evs && e.Status().EmitsFinding()
  {
    if evs == [] then []
    else Concluded(evs[..|evs| - 1]) + if evs[|evs| - 1].Status().EmitsFinding() then [evs[|evs| - 1]] else []
  }

  function SubjectsOf(evs: seq<Evaluation>): set<string> {
    set e | e in evs :: e.subject.assetId
  }

  function WithStatus(evs: seq<Evaluation>, status: Status): (r: seq<Evaluation>)
    ensures forall e :: e in r <==> e in evs && e.Status() == status
    ensures |r| <= |evs| && (|r| == |evs| <==> forall e :: e in evs ==> e.Status() == status)
  {
    if evs == [] then []
    else
      assert evs == evs[..|evs| - 1] + [evs[|evs| - 1]];
      WithStatus(evs[..|evs| - 1], status) + if evs[|evs| - 1].Status() == status then [evs[|evs| - 1]] else []
  }

  datatype Population = Population(total: nat, assessed: nat, failing: nat, na: nat, observations: nat)

  function Max(a: nat, b: nat): nat {
    if a >= b then a else b
  }

  /** The subjects for which every determination says not-applicable. */
  function NotApplicableSubjects(determined: seq<Evaluation>): set<string> {
    set e | e in determined
            && (forall f | f in determined :: f.subject.assetId == e.subject.assetId ==> f.Status().NotApplicable?)
          :: e.subject.assetId
  }

  function PopulationOf(determined: seq<Evaluation>, estateTotal: nat): Population {
    var assessed := SubjectsOf(determined);
    Population(
      Max(estateTotal, |assessed|), |assessed|, |SubjectsOf(WithStatus(determined, NotSatisfied))|,
      |NotApplicableSubjects(determined)|, |determined|)
  }

  /** `_population`, grouping the determinations by subject first. */
  method CountPopulation(determined: seq<Evaluation>, estateTotal: nat) returns (p: Population)
    ensures p == PopulationOf(determined, estateTotal)
  {
    var assessed := SubjectsOf(determined);
    var failing := SubjectsOf(WithStatus(determined, NotSatisfied));
    var bySubject: map<string, seq<Evaluation>> := map[];
    for i := 0 to |determined|
      invariant forall s :: s in bySubject <==> exists e :: e in determined[..i] && e.subject.assetId == s
      invariant forall s :: s in bySubject ==>
                  forall e :: e in bySubject[s] <==> e in determined[..i] && e.subject.assetId == s
    {
      var e, s := determined[i], determined[i].subject.assetId;
      assert determined[..i + 1] == determined[..i] + [e];
      bySubject := bySubject[s := (if s in bySubject then bySubject[s] else []) + [e]];
    }
    assert determined[..|determined|] == determined;
    var na := set s | s in bySubject && forall e | e in bySubject[s] :: e.Status().NotApplicable?;
    assert na == NotApplicableSubjects(determined) by {
      forall s | s in NotApplicableSubjects(determined) ensures s in na {
        var e :| e in determined && e.subject.assetId == s
                 && forall f | f in determined :: f.subject.assetId == e.subject.assetId ==> f.Status().NotApplicable?;
      }
      forall s | s in na ensures s in NotApplicableSubjects(determined) {
        var e :| e in determined && e.subject.assetId == s;
        assert forall f :: f in determined && f.subject.assetId == s ==> f in bySubject[s];
      }
    }
    p := Population(Max(estateTotal, |assessed|), |assessed|, |failing|, |na|, |determined|);
  }

  /** The weakest confidence on record among the determinations; `direct` when none has any. */
  function Weakest(determined: seq<Evaluation>): Option<Confidence> {
    if determined == [] then None
    else
      var before, c := Weakest(determined[..|determined| - 1]), determined[|determined| - 1].result.confidence;
      if c.None? then before
      else if before.None? || c.value.Rank() > before.value.Rank() then c
      else before
  }

  function ConfidenceOf(determined: seq<Evaluation>): Confidence {
    var w := Weakest(determined);
    if w.Some? then w.value else Direct
  }

  predicate AllNotApplicable(determined: seq<Evaluation>) {
    forall e | e in determined :: e.Status().NotApplicable?
  }

  predicate AnyFailing(determined: seq<Evaluation>) {
    exists e | e in determined :: e.Status().NotSatisfied?
  }

  /** The verdict on a control from its determinations. */
  function Verdict(determined: seq<Evaluation>): Status {
    if AnyFailing(determined) then NotSatisfied
    else if AllNotApplicable(determined) then NotApplicable
    else Satisfied
  }

  /** OSCAL's finding state has two values only. */
  function StateText(determined: seq<Evaluation>): string {
    if AnyFailing(determined) then "not-satisfied" else "satisfied"
  }

  predicate AggregateOnly(determined: seq<Evaluation>) {
    determined != [] && forall e | e in determined :: e.check.scope.Aggregate?
  }

  function EstateFor(determined: seq<Evaluation>, estateTotal: nat): nat {
    if AggregateOnly(determined) then |determined| else estateTotal
  }

  function BasisText(determined: seq<Evaluation>): string {
    if AggregateOnly(determined) then "aggregate-subject" else "subject"
  }

  function FindingProps(run: Run, determined: seq<Evaluation>, p: Population): seq<Prop> {
    [ Own("assessment-status", StatusText(Verdict(determined))),
      Own("confidence", ConfidenceText(ConfidenceOf(determined))),
      Own("aggregation-key", run.systemId + "/" + run.baseline),
      Own("population-total", NatText(p.total)),
      Own("population-assessed", NatText(p.assessed)),
      Own("population-failing", NatText(p.failing)),
      Own("population-na", NatText(p.na)),
      Own("population-basis", BasisText(determined)) ]
  }

  function ObservationUuids(run: Run, evs: seq<Evaluation>): (r: seq<string>)
    ensures |r| == |evs| && forall i :: 0 <= i < |evs| ==> r[i] == ObservationUuid(run, evs[i])
  {
    if evs == [] then [] else ObservationUuids(run, evs[..|evs| - 1]) + [ObservationUuid(run, evs[|evs| - 1])]
  }

  function FindingUuid(run: Run, control: string): string {
    run.uuid(["finding", run.uuid(["result", run.systemId, run.runId]), control, run.systemId + "/" + run.baseline])
  }

  /** `_finding`: one finding per control, from the determinations that bear on it. */
  function FindingOf(run: Run, control: string, statementId: string, determined: seq<Evaluation>,
                     estateTotal: nat): Finding {
    var p := PopulationOf(determined, EstateFor(determined, estateTotal));
    Finding(
      FindingUuid(run, control),
      control + " " + StateText(determined),
      FindingProps(run, determined, p),
      Target(statementId, StateText(determined), AllNotApplicable(determined)),
      ObservationUuids(run, determined))
  }

  function BoundControls(evs: seq<Evaluation>): set<string> {
    set e, b | e in evs && b in e.check.controls :: b.controlId
  }

  /** A control's finding, or nothing when no determination was made. */
  function FindingFor(run: Run, control: string, evs: seq<Evaluation>, catalog: Catalog,
                      estateTotal: nat): seq<Finding> {
    var determined := Concluded(Contributing(evs, control));
    if determined == [] || control !in catalog then []
    else [FindingOf(run, control, catalog[control].statementId, determined, estateTotal)]
  }

  /** The findings of a list of controls, in their order. */
  function Collect(controls: seq<string>, make: string -> seq<Finding>): seq<Finding> {
    if controls == [] then [] else Collect(controls[..|controls| - 1], make) + make(controls[|controls| - 1])
  }

  function MakeFinding(run: Run, evs: seq<Evaluation>, catalog: Catalog, estateTotal: nat): string -> seq<Finding> {
    c => FindingFor(run, c, evs, catalog, estateTotal)
  }

  function FindingsFor(run: Run, controls: seq<string>, evs: seq<Evaluation>, catalog: Catalog,
                       estateTotal: nat): seq<Finding> {
    Collect(controls, MakeFinding(run, evs, catalog, estateTotal))
  }

  function EstateTotal(evs: seq<Evaluation>, populationTotal: Option<nat>): nat {
    if populationTotal.Some? then populationTotal.value else |SubjectsOf(evs)|
  }

  function TitleControls(findings: seq<Finding>): set<string> {
    set f | f in findings :: FirstWord(f.title)
  }

  /** The controls of a baseline that no finding names. */
  function Undetermined(baseline: seq<string>, findings: seq<Finding>): seq<string> {
    Filter(baseline, WithoutFinding(findings))
  }

  function WithoutFinding(findings: seq<Finding>): string -> bool {
    c => c !in TitleControls(findings)
  }

  function UndeterminedProps(reasons: map<string, Reason>, keys: seq<string>): seq<Prop>
    requires forall k :: k in keys ==> k in reasons
  {
    if keys == [] then []
    else UndeterminedProps(reasons, keys[..|keys| - 1])
         + [Own("undetermined", keys[|keys| - 1] + "=" + ReasonText(reasons[keys[|keys| - 1]]))]
  }

  function RunProps(run: Run, baselineSize: nat, determined: nat, undetermined: nat, inScope: nat,
                    assessed: nat): seq<Prop> {
    [ Own("catalog-version", run.version), Own("baseline", run.baseline), Own("system-id", run.systemId),
      Own("run-id", run.runId), Own("controls-in-baseline", NatText(baselineSize)),
      Own("controls-determined", NatText(determined)), Own("controls-unassessed", NatText(undetermined)),
      Own("subjects-in-scope", NatText(inScope)), Own("subjects-assessed", NatText(assessed)) ]
  }

  predicate KnownControls(baseline: seq<string>, evs: seq<Evaluation>, catalog: Catalog) {
    (forall c :: c in baseline ==> c in catalog) && forall c :: c in BoundControls(evs) ==> c in catalog
  }

  /** The results document of a run. */
  function ResultsOf(run: Run, baseline: seq<string>, evs: seq<Evaluation>, registry: Registry, catalog: Catalog,
                     populationTotal: Option<nat>): Results
    requires KnownControls(baseline, evs, catalog)
  {
    var estateTotal := EstateTotal(evs, populationTotal);
    var findings := FindingsFor(run, SortedKeys(BoundControls(evs)), evs, catalog, estateTotal);
    Document(run, baseline, evs, catalog, estateTotal, findings, WithoutVerdict(baseline, registry, evs))
  }

  function Document(run: Run, baseline: seq<string>, evs: seq<Evaluation>, catalog: Catalog, estateTotal: nat,
                    findings: seq<Finding>, reasons: map<string, Reason>): Results
    requires forall c :: c in baseline ==> c in catalog
  {
    Results(
      RunProps(run, |baseline|, |findings|, |Undetermined(baseline, findings)|, estateTotal, |SubjectsOf(evs)|)
        + UndeterminedProps(reasons, SortedKeys(reasons.Keys)),
      [Selection([], IncludesOf(baseline, catalog))],
      Observations(run, evs),
      findings)
  }

  function GroupOf(groups: map<string, seq<Evaluation>>, c: string): seq<Evaluation> {
    if c in groups then groups[c] else []
  }

  /** `r` is `groups` with the evaluation added once for every given binding. */
  ghost predicate Filed(groups: map<string, seq<Evaluation>>, ev: Evaluation, bs: seq<Binding>,
                        r: map<string, seq<Evaluation>>) {
    forall c :: GroupOf(r, c) == GroupOf(groups, c) + Repeats(ev, bs, c)
  }

  lemma RepeatsNext(ev: Evaluation, bs: seq<Binding>, b: Binding, c: string)
    ensures Repeats(ev, bs + [b], c) == Repeats(ev, bs, c) + if b.controlId == c then [ev] else []
  {
    assert (bs + [b])[..|bs|] == bs;
  }

  lemma FiledNext(groups: map<string, seq<Evaluation>>, ev: Evaluation, bs: seq<Binding>, b: Binding,
                  r: map<string, seq<Evaluation>>)
    requires Filed(groups, ev, bs, r)
    ensures Filed(groups, ev, bs + [b], r[b.controlId := GroupOf(r, b.controlId) + [ev]])
  {
    var after := r[b.controlId := GroupOf(r, b.controlId) + [ev]];
    forall c ensures GroupOf(after, c) == GroupOf(groups, c) + Repeats(ev, bs + [b], c) {
      RepeatsNext(ev, bs, b, c);
      Joined(GroupOf(groups, c), Repeats(ev, bs, c), if b.controlId == c then [ev] else []);
      assert GroupOf(after, c) == GroupOf(r, c) + if b.controlId == c then [ev] else [];
    }
  }

  /** No control is filed with an empty list. */
  ghost predicate NoEmptyGroup(groups: map<string, seq<Evaluation>>) {
    forall c :: c in groups ==> groups[c] != []
  }

  /** One evaluation, filed under every control its check is bound to. */
  method FileUnder(groups: map<string, seq<Evaluation>>, ev: Evaluation) returns (r: map<string, seq<Evaluation>>)
    requires NoEmptyGroup(groups)
    ensures NoEmptyGroup(r) && Filed(groups, ev, ev.check.controls, r)
  {
    r := groups;
    var bs := ev.check.controls;
    for j := 0 to |bs|
      invariant NoEmptyGroup(r) && Filed(groups, ev, bs[..j], r)
    {
      assert bs[..j + 1] == bs[..j] + [bs[j]];
      FiledNext(groups, ev, bs[..j], bs[j], r);
      StillNoEmptyGroup(r, bs[j].controlId, ev);
      r := r[bs[j].controlId := GroupOf(r, bs[j].controlId) + [ev]];
    }
    assert bs[..|bs|] == bs;
  }

  lemma StillNoEmptyGroup(groups: map<string, seq<Evaluation>>, c: string, ev: Evaluation)
    requires NoEmptyGroup(groups)
    ensures NoEmptyGroup(groups[c := GroupOf(groups, c) + [ev]])
  {
  }

  /** The dictionary `emit_assessment_results` builds first: control to the evaluations bound to it. */
  method GroupByControl(evs: seq<Evaluation>) returns (byControl: map<string, seq<Evaluation>>)
    ensures byControl.Keys == BoundControls(evs)
    ensures forall c :: GroupOf(byControl, c) == Contributing(evs, c)
  {
    byControl := map[];
    for i := 0 to |evs|
      invariant NoEmptyGroup(byControl)
      invariant forall c :: GroupOf(byControl, c) == Contributing(evs[..i], c)
    {
      assert evs[..i + 1][..i] == evs[..i];
      byControl := FileUnder(byControl, evs[i]);
    }
    assert evs[..|evs|] == evs;
    forall c ensures c in byControl <==> c in BoundControls(evs) {
      BoundExact(evs, c);
      assert c in byControl <==> GroupOf(byControl, c) != [];
    }
  }

  /** A control is bound by some evaluation exactly when some evaluation bears on it. */
  lemma BoundExact(evs: seq<Evaluation>, c: string)
    ensures c in BoundControls(evs) <==> Contributing(evs, c) != []
  {
    if Contributing(evs, c) != [] {
      var e := Contributing(evs, c)[0];
      assert e in Contributing(evs, c);
      var b :| b in e.check.controls && b.controlId == c;
    }
    if c in BoundControls(evs) {
      var e, b :| e in evs && b in e.check.controls && b.controlId == c;
      assert e in Contributing(evs, c);
    }
  }

  /** One finding for each control with a determination, in the order of the controls. */
  method EmitFindings(run: Run, controls: seq<string>, evs: seq<Evaluation>, catalog: Catalog, estateTotal: nat)
    returns (findings: seq<Finding>)
    requires forall c :: c in controls ==> c in catalog
    ensures findings == FindingsFor(run, controls, evs, catalog, estateTotal)
  {
    var byControl := GroupByControl(evs);
    findings := [];
    ghost var make := MakeFinding(run, evs, catalog, estateTotal);
    for i := 0 to |controls|
      invariant findings == Collect(controls[..i], make)
    {
      assert controls[..i + 1][..i] == controls[..i];
      var control := controls[i];
      var determined := Concluded(GroupOf(byControl, control));
      if determined == [] { continue; }
      var population := CountPopulation(determined, EstateFor(determined, estateTotal));
      var finding := Finding(
        FindingUuid(run, control), control + " " + StateText(determined), FindingProps(run, determined, population),
        Target(catalog[control].statementId, StateText(determined), AllNotApplicable(determined)),
        ObservationUuids(run, determined));
      assert make(control) == [finding];
      findings := findings + [finding];
    }
    assert controls[..|controls|] == controls;
  }

  /** `emit_assessment_results`; a control the catalog does not know is refused. */
  method EmitResults(run: Run, baseline: seq<string>, evs: seq<Evaluation>, registry: Registry, catalog: Catalog,
                     populationTotal: Option<nat>)
    returns (results: Result<Results, string>)
    ensures results.Ok? <==> KnownControls(baseline, evs, catalog)
    ensures results.Ok? ==> results.value == ResultsOf(run, baseline, evs, registry, catalog, populationTotal)
  {
    var controls := SortedKeys(BoundControls(evs));
    if !KnownControls(baseline, evs, catalog) { return Err("not in the catalog"); }
    var estateTotal := EstateTotal(evs, populationTotal);
    var findings := EmitFindings(run, controls, evs, catalog, estateTotal);
    var reasons := UnassessedControls(baseline, registry, evs);
    return Ok(Document(run, baseline, evs, catalog, estateTotal, findings, reasons));
  }

  // ----- action items -----------------------------------------------------------------------

  function GetOr(m: map<string, string>, key: string, fallback: string): string {
    if key in m then m[key] else fallback
  }

  function PoamItemOf(run: Run, f: Finding): PoamItem {
    var control, props := FirstWord(f.title), AllProps(f.props);
    PoamItem(
      run.uuid(["poam", run.systemId, control, "aggregate", GetOr(props, "aggregation-key", run.baseline)]),
      control + " not satisfied",
      [Own("control-id", control), Own("baseline", run.baseline), Own("poam-status", "open"),
       Own("confidence", GetOr(props, "confidence", "direct")),
       Own("population-failing", GetOr(props, "population-failing", "0")),
       Own("population-assessed", GetOr(props, "population-assessed", "0"))],
      [f.uuid])
  }

  function PoamItems(run: Run, findings: seq<Finding>): seq<PoamItem> {
    if findings == [] then []
    else
      var f := findings[|findings| - 1];
      PoamItems(run, findings[..|findings| - 1]) + if f.target.state == "not-satisfied" then [PoamItemOf(run, f)]
          else []
  }

  /** What stands in an action plan without open items. */
  function NoOpenItems(run: Run): PoamItem {
    PoamItem(run.uuid(["poam-empty", run.systemId]), "No open items", [], [])
  }

  /** The items of an action plan, which is never empty. */
  function PlanItems(run: Run, findings: seq<Finding>): seq<PoamItem> {
    if PoamItems(run, findings) == [] then [NoOpenItems(run)] else PoamItems(run, findings)
  }

  /** `emit_poam`. */
  method EmitPoam(run: Run, results: Results) returns (items: seq<PoamItem>)
    ensures items == PlanItems(run, results.findings)
  {
    items := [];
    for i := 0 to |results.findings|
      invariant items == PoamItems(run, results.findings[..i])
    {
      assert results.findings[..i + 1][..i] == results.findings[..i];
      var f := results.findings[i];
      if f.target.state != "not-satisfied" { continue; }
      items := items + [PoamItemOf(run, f)];
    }
    assert results.findings[..|results.findings|] == results.findings;
    if items == [] {
      items := [NoOpenItems(run)];
    }
  }
}
