/** What rows and action items read: the words a verdict is reported in, and the figures an open item carries. */
module ActionItems {
  import opened Text
  import opened Json
  import opened Contract
  import opened Registry
  import opened Evaluate
  import opened Oscal
  import opened Emit
  import opened Report
  import opened RoundTrip
  import opened ReportTheorems

  // ----- words --------------------------------------------------------------------------

  ghost predicate SaysConfidence(c: Confidence, text: string) {
    match c
    case Direct => text == "direct"
    case Proxy => text == "proxy"
    case Partial => text == "partial"
    case Attested => text == "attested"
  }

  /** The words for what the determinations of a control came to, or for there being none. */
  ghost predicate SaysStatus(ds: seq<Evaluation>, text: string) {
    if ds == [] then text == "undetermined"
    else if exists e :: e in ds && e.Status().NotSatisfied? then text == "not-satisfied"
    else if exists e :: e in ds && !e.Status().NotApplicable? then text == "satisfied"
    else text == "not-applicable"
  }

  /** The words for each reason. */
  ghost predicate SaysReason(r: Reason, text: string) {
    && (r.NotImplemented? ==> text == "not-implemented") && (r.OutOfScope? ==> text == "out-of-scope")
    && (r.Unreachable? ==> text == "unreachable") && (r.InsufficientPrivilege? ==> text == "insufficient-privilege")
    && (r.InsufficientHistory? ==> text == "insufficient-history")
    && (r.PartialPopulation? ==> text == "partial-population")
    && (r.UnsupportedPlatform? ==> text == "unsupported-platform")
    && (r.CollectionError? ==> text == "collection-error")
    && (r.RequiresAttestation? ==> text == "requires-attestation")
    && (r.NoSubjectInScope? ==> text == "no-subject-in-scope") && (r.EvaluationError? ==> text == "evaluation-error")
    && (r.RequiresInterview? ==> text == "requires-interview")
    && (r.RequiresExternalSystem? ==> text == "requires-external-system")
    && (r.EvidenceExpired? ==> text == "evidence-expired") && (r.DeferredByPolicy? ==> text == "deferred-by-policy")
  }

  lemma ConfidenceSays(c: Confidence)
    ensures SaysConfidence(c, ConfidenceText(c))
  {
  }

  lemma ReasonSays(r: Reason)
    ensures SaysReason(r, ReasonText(r))
  {
  }

  lemma StatusSays(ds: seq<Evaluation>)
    requires ds != []
    ensures SaysStatus(ds, StatusText(Verdict(ds)))
  {
  }

  /** The row of a control reads what its determinations came to and how well, or why there are none. */
  lemma RowSays(run: Run, registry: Registry, evs: seq<Evaluation>, catalog: Catalog, estateTotal: nat, c: string)
    ensures var row, ds := DirectRow(run, registry, evs, catalog, estateTotal, c), Determinations(evs, c);
            && SaysStatus(ds, row.status)
            && (ds != [] ==> row.confidence.Some? && SaysConfidence(ConfidenceOf(ds), row.confidence.value)
                             && row.reason.None?)
            && (ds == [] ==> row.reason.Some? && SaysReason(WhyUndetermined(registry, evs, c), row.reason.value)
                             && row.confidence.None?)
  {
    var ds := Determinations(evs, c);
    ConfidenceSays(ConfidenceOf(ds));
    ReasonSays(WhyUndetermined(registry, evs, c));
    if ds != [] { StatusSays(ds); }
  }

  // ----- what an item carries ---------------------------------------------------------------

  lemma {:induction false} OwnAreAll(props: seq<Prop>)
    requires forall p :: p in props ==> p.ns == Some(NS)
    ensures AllProps(props) == OwnProps(props)
  {
    if props != [] {
      assert props[|props| - 1] in props;
      OwnAreAll(props[..|props| - 1]);
    }
  }

  /** What an open item says, as a mapping. */
  function ItemFigures(control: string, baseline: string, confidence: string, failing: nat,
                       assessed: nat): map<string, string> {
    map["control-id" := control, "baseline" := baseline, "poam-status" := "open", "confidence" := confidence,
        "population-failing" := NatText(failing), "population-assessed" := NatText(assessed)]
  }

  lemma SixProps(a: string, b: string, c: string, d: string, e: string, f: string)
    ensures OwnProps([Own("control-id", a), Own("baseline", b), Own("poam-status", c), Own("confidence", d),
                      Own("population-failing", e), Own("population-assessed", f)])
         == map["control-id" := a, "baseline" := b, "poam-status" := c, "confidence" := d, "population-failing" := e,
                "population-assessed" := f]
  {
    var p1 := [Own("control-id", a)];
    var p2 := p1 + [Own("baseline", b)];
    var p3 := p2 + [Own("poam-status", c)];
    var p4 := p3 + [Own("confidence", d)];
    var p5 := p4 + [Own("population-failing", e)];
    assert p1 == [] + [Own("control-id", a)];
    OwnPropsAdd([], "control-id", a);
    OwnPropsAdd(p1, "baseline", b);
    OwnPropsAdd(p2, "poam-status", c);
    OwnPropsAdd(p3, "confidence", d);
    OwnPropsAdd(p4, "population-failing", e);
    OwnPropsAdd(p5, "population-assessed", f);
    assert p5 + [Own("population-assessed", f)] ==
      [Own("control-id", a), Own("baseline", b), Own("poam-status", c), Own("confidence", d),
       Own("population-failing", e), Own("population-assessed", f)];
  }

  /** The figures a finding is read by when an item is made of it. */
  lemma FiguresTaken(p: Population, basis: string, status: string, confidence: string, key: string, fallback: string)
    ensures var m := WithFigures(p, basis, status, confidence, key);
            && GetOr(m, "aggregation-key", fallback) == key && GetOr(m, "confidence", "direct") == confidence
            && GetOr(m, "population-failing", "0") == NatText(p.failing)
            && GetOr(m, "population-assessed", "0") == NatText(p.assessed)
  {
  }

  lemma FindingPropsAreOwn(run: Run, ds: seq<Evaluation>, p: Population)
    ensures forall q :: q in FindingProps(run, ds, p) ==> q.ns == Some(NS)
  {
  }

  /** The identity of an item does not depend on the run. */
  function ItemUuid(run: Run, control: string): string {
    run.uuid(["poam", run.systemId, control, "aggregate", run.systemId + "/" + run.baseline])
  }

  lemma ItemProps(run: Run, f: Finding, m: map<string, string>, confidence: string, failing: nat, assessed: nat)
    requires m == AllProps(f.props) && GetOr(m, "confidence", "direct") == confidence
    requires GetOr(m, "population-failing", "0") == NatText(failing)
    requires GetOr(m, "population-assessed", "0") == NatText(assessed)
    ensures OwnProps(PoamItemOf(run, f).props)
         == ItemFigures(FirstWord(f.title), run.baseline, confidence, failing, assessed)
  {
    SixProps(FirstWord(f.title), run.baseline, "open", confidence, NatText(failing), NatText(assessed));
  }

  lemma ItemOf(run: Run, f: Finding, ds: seq<Evaluation>, p: Population, c: string)
    requires f.props == FindingProps(run, ds, p) && FirstWord(f.title) == c
    ensures OwnProps(PoamItemOf(run, f).props)
         == ItemFigures(c, run.baseline, ConfidenceText(ConfidenceOf(ds)), p.failing, p.assessed)
    ensures PoamItemOf(run, f).uuid == ItemUuid(run, c)
  {
    var key := run.systemId + "/" + run.baseline;
    FindingPropsAreOwn(run, ds, p);
    OwnAreAll(f.props);
    FindingPropsRead(run, ds, p);
    FiguresTaken(p, BasisText(ds), StatusText(Verdict(ds)), ConfidenceText(ConfidenceOf(ds)), key, run.baseline);
    ItemProps(run, f, AllProps(f.props), ConfidenceText(ConfidenceOf(ds)), p.failing, p.assessed);
  }

  /** The item carries the figures of the population and the weakest confidence on record, in words. */
  ghost predicate Carries(item: PoamItem, run: Run, c: string, p: Population, confidence: Confidence) {
    exists text :: SaysConfidence(confidence, text)
                   && OwnProps(item.props) == ItemFigures(c, run.baseline, text, p.failing, p.assessed)
  }

  lemma FindingMakesItem(run: Run, evs: seq<Evaluation>, catalog: Catalog, estateTotal: nat, k: string, f: Finding)
    requires WellFormed(catalog) && k in catalog && f in FindingFor(run, k, evs, catalog, estateTotal)
    ensures var ds := Determinations(evs, k);
            && Carries(PoamItemOf(run, f), run, k, PopulationOf(ds, EstateFor(ds, estateTotal)), ConfidenceOf(ds))
            && PoamItemOf(run, f).uuid == ItemUuid(run, k)
  {
    var ds := Determinations(evs, k);
    var fs := FindingFor(run, k, evs, catalog, estateTotal);
    FindingReadsAs(run, evs, catalog, estateTotal, k);
    assert fs == [f];
    ItemOf(run, f, ds, PopulationOf(ds, EstateFor(ds, estateTotal)), k);
    ConfidenceSays(ConfidenceOf(ds));
  }

  /**
   Every open item of a control carries the failing and assessed figures of its determinations and the weakest
   confidence recorded on them, and is named the same in every run against the same system and baseline.
   */
  lemma OpenItemCarries(run: Run, controls: seq<string>, evs: seq<Evaluation>, catalog: Catalog, estateTotal: nat,
                        c: string, item: PoamItem)
    requires WellFormed(catalog) && (forall k :: k in controls ==> k in catalog)
    requires item in PlanItems(run, FindingsFor(run, controls, evs, catalog, estateTotal)) && IsItemOf(run, item, c)
    ensures var ds := Determinations(evs, c);
            && AnyFailing(ds)
            && Carries(item, run, c, PopulationOf(ds, EstateFor(ds, estateTotal)), ConfidenceOf(ds))
            && item.uuid == ItemUuid(run, c)
  {
    assert NoOpenItems(run).findings == [];
    var k, f := ItemSource(run, controls, MakeFinding(run, evs, catalog, estateTotal), item);
    MadeItem(run, evs, catalog, estateTotal, k, c, f);
    FindingMakesItem(run, evs, catalog, estateTotal, k, f);
  }
}
