/** The verdicts written into the OSCAL documents are the verdicts the report reads back. */
module RoundTrip {
  import opened Text
  import opened Lists
  import opened Json
  import opened Contract
  import opened Registry
  import opened Evaluate
  import opened Oscal
  import opened Order
  import opened Emit
  import opened Report

  /** Ids survive the encodings, and statement ids are built from them. */
  ghost predicate WellFormed(catalog: Catalog) {
    forall c :: c in catalog ==> WellFormedId(c) && catalog[c].statementId == c + STATEMENT_SUFFIX
  }

  /** The determinations on a control, taken straight from the evaluations. */
  function Determinations(evs: seq<Evaluation>, control: string): seq<Evaluation> {
    Concluded(Contributing(evs, control))
  }

  lemma DeterminedExact(evs: seq<Evaluation>, control: string)
    ensures Determined(evs, control) <==> Determinations(evs, control) != []
  {
    var ds := Determinations(evs, control);
    if ds != [] {
      assert ds[0] in ds;
    }
    if Determined(evs, control) {
      var e :| e in evs && e.Status().EmitsFinding() && e.check.Binds(control);
      assert e in ds;
    }
  }

  // ----- findings -----------------------------------------------------------------------

  function FindingPropsFor(run: Run, evs: seq<Evaluation>, estateTotal: nat, control: string): seq<Prop> {
    var ds := Determinations(evs, control);
    FindingProps(run, ds, PopulationOf(ds, EstateFor(ds, estateTotal)))
  }

  lemma FindingReadsAs(run: Run, evs: seq<Evaluation>, catalog: Catalog, estateTotal: nat, control: string)
    requires WellFormed(catalog) && control in catalog
    ensures var fs := FindingFor(run, control, evs, catalog, estateTotal);
            if Determinations(evs, control) == [] then fs == []
            else |fs| == 1 && ControlOfStatement(fs[0].target.targetId) == control && FirstWord(fs[0].title) == control
                 && fs[0].props == FindingPropsFor(run, evs, estateTotal, control)
  {
    StatementExact(control);
    FirstWordOf(control, StateText(Determinations(evs, control)));
  }

  /** Reading findings back by control, when all findings of a control carry the same properties. */
  lemma {:induction false} ReadByControl(fs: seq<Finding>, c: string, props: seq<Prop>)
    requires forall f :: f in fs && ControlOfStatement(f.target.targetId) == c ==> f.props == props
    ensures var m := FindingsByControl(fs);
            && (c in m <==> exists f :: f in fs && ControlOfStatement(f.target.targetId) == c)
            && (c in m ==> m[c] == OwnProps(props))
  {
    if fs != [] {
      var rest, last := fs[..|fs| - 1], fs[|fs| - 1];
      assert fs == rest + [last];
      ReadByControl(rest, c, props);
    }
  }

  lemma {:induction false} CollectExact(controls: seq<string>, make: string -> seq<Finding>, f: Finding)
    ensures f in Collect(controls, make) <==> exists k :: k in controls && f in make(k)
  {
    if controls != [] {
      var rest, last := controls[..|controls| - 1], controls[|controls| - 1];
      assert controls == rest + [last];
      CollectExact(rest, make, f);
    }
  }

  /** Findings made for control `k`: each names it, and those for `c` carry the given properties. */
  ghost predicate ReadsAs(fs: seq<Finding>, k: string, c: string, props: seq<Prop>) {
    forall f :: f in fs ==>
      ControlOfStatement(f.target.targetId) == k && FirstWord(f.title) == k && (k == c ==> f.props == props)
  }

  /** Findings that name their own control are read back under it. */
  lemma CollectedRead(controls: seq<string>, make: string -> seq<Finding>, c: string, props: seq<Prop>)
    requires forall k :: k in controls ==> ReadsAs(make(k), k, c, props)
    ensures var m := FindingsByControl(Collect(controls, make));
            && (c in m <==> c in controls && make(c) != [])
            && (c in m ==> m[c] == OwnProps(props))
            && (c in TitleControls(Collect(controls, make)) <==> c in controls && make(c) != [])
  {
    var fs := Collect(controls, make);
    forall f | f in fs
      ensures ControlOfStatement(f.target.targetId) == FirstWord(f.title)
      ensures FirstWord(f.title) == c ==> c in controls && make(c) != [] && f.props == props
    {
      CollectExact(controls, make, f);
      var k :| k in controls && f in make(k);
    }
    if c in controls && make(c) != [] {
      var f := make(c)[0];
      assert f in make(c);
      CollectExact(controls, make, f);
    }
    ReadByControl(fs, c, props);
  }

  lemma MadeReadsAs(run: Run, evs: seq<Evaluation>, catalog: Catalog, estateTotal: nat, k: string, c: string)
    requires WellFormed(catalog) && k in catalog
    ensures var fs := MakeFinding(run, evs, catalog, estateTotal)(k);
            ReadsAs(fs, k, c, FindingPropsFor(run, evs, estateTotal, c)) && (fs == [] <==> Determinations(evs, k) == [])
  {
    var fs := FindingFor(run, k, evs, catalog, estateTotal);
    FindingReadsAs(run, evs, catalog, estateTotal, k);
    if fs != [] {
      assert fs == [fs[0]];
      OneReadsAs(fs[0], k, c, FindingPropsFor(run, evs, estateTotal, c));
    }
  }

  lemma OneReadsAs(f: Finding, k: string, c: string, props: seq<Prop>)
    requires ControlOfStatement(f.target.targetId) == k && FirstWord(f.title) == k && (k == c ==> f.props == props)
    ensures ReadsAs([f], k, c, props)
  {
  }

  /**
   Each finding is read back under its own control, by statement and by title, and there is one for every
   determined control.
   */
  lemma FindingsRead(run: Run, controls: seq<string>, evs: seq<Evaluation>, catalog: Catalog, estateTotal: nat,
                     c: string)
    requires WellFormed(catalog) && forall k :: k in controls ==> k in catalog
    ensures var fs := FindingsFor(run, controls, evs, catalog, estateTotal);
            && (c in FindingsByControl(fs) <==> c in controls && Determinations(evs, c) != [])
            && (c in FindingsByControl(fs) ==>
                  FindingsByControl(fs)[c] == OwnProps(FindingPropsFor(run, evs, estateTotal, c)))
            && (c in TitleControls(fs) <==> c in controls && Determinations(evs, c) != [])
  {
    var make, props := MakeFinding(run, evs, catalog, estateTotal), FindingPropsFor(run, evs, estateTotal, c);
    forall k | k in controls
      ensures ReadsAs(make(k), k, c, props) && (make(k) == [] <==> Determinations(evs, k) == [])
    {
      MadeReadsAs(run, evs, catalog, estateTotal, k, c);
    }
    CollectedRead(controls, make, c, props);
  }

  /** The figures of a finding as the report shows them. */
  function Figures(p: Population, basis: string): map<string, string> {
    map["population-total" := NatText(p.total), "population-assessed" := NatText(p.assessed),
        "population-failing" := NatText(p.failing), "population-na" := NatText(p.na), "population-basis" := basis]
  }

  /** All a finding says, as a mapping. */
  function WithFigures(p: Population, basis: string, status: string, confidence: string,
                       key: string): map<string, string> {
    map["assessment-status" := status, "confidence" := confidence, "aggregation-key" := key,
        "population-total" := NatText(p.total), "population-assessed" := NatText(p.assessed),
        "population-failing" := NatText(p.failing), "population-na" := NatText(p.na), "population-basis" := basis]
  }

  lemma FindingPropsRead(run: Run, ds: seq<Evaluation>, p: Population)
    ensures OwnProps(FindingProps(run, ds, p))
         == WithFigures(p, BasisText(ds), StatusText(Verdict(ds)), ConfidenceText(ConfidenceOf(ds)),
                        run.systemId + "/" + run.baseline)
  {
    EightProps(StatusText(Verdict(ds)), ConfidenceText(ConfidenceOf(ds)), run.systemId + "/" + run.baseline,
               NatText(p.total), NatText(p.assessed), NatText(p.failing), NatText(p.na), BasisText(ds));
  }

  lemma EightProps(a: string, b: string, c: string, d: string, e: string, f: string, g: string, h: string)
    ensures OwnProps([Own("assessment-status", a), Own("confidence", b), Own("aggregation-key", c),
                      Own("population-total", d),
                      Own("population-assessed", e), Own("population-failing", f), Own("population-na", g),
                          Own("population-basis", h)])
         == map["assessment-status" := a, "confidence" := b, "aggregation-key" := c, "population-total" := d,
                "population-assessed" := e, "population-failing" := f, "population-na" := g, "population-basis" := h]
  {
    var p1 := [Own("assessment-status", a)];
    var p2 := p1 + [Own("confidence", b)];
    var p3 := p2 + [Own("aggregation-key", c)];
    var p4 := p3 + [Own("population-total", d)];
    var p5 := p4 + [Own("population-assessed", e)];
    var p6 := p5 + [Own("population-failing", f)];
    var p7 := p6 + [Own("population-na", g)];
    assert p1 == [] + [Own("assessment-status", a)];
    OwnPropsAdd([], "assessment-status", a);
    OwnPropsAdd(p1, "confidence", b);
    OwnPropsAdd(p2, "aggregation-key", c);
    OwnPropsAdd(p3, "population-total", d);
    OwnPropsAdd(p4, "population-assessed", e);
    OwnPropsAdd(p5, "population-failing", f);
    OwnPropsAdd(p6, "population-na", g);
    OwnPropsAdd(p7, "population-basis", h);
    assert p7 + [Own("population-basis", h)] ==
      [Own("assessment-status", a), Own("confidence", b), Own("aggregation-key", c), Own("population-total", d),
       Own("population-assessed", e), Own("population-failing", f), Own("population-na", g),
           Own("population-basis", h)];
  }

  // ----- observations and reasons --------------------------------------------------------

  /** No observation the emitter writes links to a control, so none overrides a reason. */
  lemma {:induction false} ObservationsNameNoControl(run: Run, evs: seq<Evaluation>)
    ensures ObservedReasons(Observations(run, evs)) == map[]
  {
    if evs != [] {
      var rest, last := evs[..|evs| - 1], evs[|evs| - 1];
      ObservationsNameNoControl(run, rest);
      var before, o := Observations(run, rest), ObservationOf(run, last);
      assert (before + [o])[..|before|] == before;
      NoLink(o.evidence, GetOr(OwnProps(o.props), "unassessed-reason", ""));
    }
  }

  lemma NoLink(links: seq<Evidence>, reason: string)
    requires |links| <= 1 && forall l :: l in links ==> l.href.None?
    ensures WithLinks(map[], links, reason) == map[]
  {
    assert ControlOfStatement(StripHash("")) == "";
  }

  lemma {:induction false} NoReasonProps(props: seq<Prop>)
    requires forall p :: p in props ==> !IsReasonProp(p)
    ensures EmittedReasons(props) == map[]
  {
    if props != [] {
      NoReasonProps(props[..|props| - 1]);
    }
  }

  lemma {:induction false} EmittedAppend(a: seq<Prop>, p: Prop)
    ensures EmittedReasons(a + [p]) == WithReasonProp(EmittedReasons(a), p)
  {
    assert (a + [p])[..|a|] == a;
  }

  /** Each `control=reason` property is read back as it was meant. */
  lemma {:induction false} ReasonsRead(before: seq<Prop>, reasons: map<string, Reason>, keys: seq<string>, c: string)
    requires forall p :: p in before ==> !IsReasonProp(p)
    requires forall k :: k in keys ==> k in reasons && Separable(k)
    ensures var m := EmittedReasons(before + UndeterminedProps(reasons, keys));
            && (c in m <==> c in keys)
            && (c in m ==> m[c] == ReasonText(reasons[c]))
  {
    if keys == [] {
      assert before + UndeterminedProps(reasons, keys) == before;
      NoReasonProps(before);
    } else {
      var rest, k := keys[..|keys| - 1], keys[|keys| - 1];
      assert keys == rest + [k];
      ReasonsRead(before, reasons, rest, c);
      var sofar, p := before + UndeterminedProps(reasons, rest), Own("undetermined", k + "=" + ReasonText(reasons[k]));
      assert before + UndeterminedProps(reasons, keys) == sofar + [p];
      EmittedAppend(sofar, p);
      PartitionOf(k, ReasonText(reasons[k]));
    }
  }

  lemma RunPropsAreNoReasons(run: Run, baseline: nat, determined: nat, undetermined: nat, inScope: nat, assessed: nat)
    ensures forall p :: p in RunProps(run, baseline, determined, undetermined, inScope, assessed) ==> !IsReasonProp(p)
  {
    assert "undetermined"[0] == 'u' && "undetermined"[1] == 'n';
    assert "catalog-version"[0] == 'c' && "baseline"[0] == 'b' && "system-id"[0] == 's' && "run-id"[0] == 'r';
    assert "controls-in-baseline"[0] == 'c' && "controls-determined"[0] == 'c' && "controls-unassessed"[0] == 'c';
    assert "subjects-in-scope"[0] == 's' && "subjects-assessed"[0] == 's';
  }

  /** A property the undetermined list does not use is read from the run's own properties. */
  lemma {:induction false} RunPropsSurvive(before: seq<Prop>, reasons: map<string, Reason>, keys: seq<string>,
                                           name: string)
    requires name != "undetermined" && forall k :: k in keys ==> k in reasons
    ensures var m := OwnProps(before + UndeterminedProps(reasons, keys));
            && (name in m <==> name in OwnProps(before))
            && (name in m ==> m[name] == OwnProps(before)[name])
  {
    if keys == [] {
      assert before + UndeterminedProps(reasons, keys) == before;
    } else {
      var rest, k := keys[..|keys| - 1], keys[|keys| - 1];
      assert keys == rest + [k];
      RunPropsSurvive(before, reasons, rest, name);
      var sofar := before + UndeterminedProps(reasons, rest);
      assert before + UndeterminedProps(reasons, keys) == sofar
          + [Own("undetermined", k + "=" + ReasonText(reasons[k]))];
      OwnPropsAdd(sofar, "undetermined", k + "=" + ReasonText(reasons[k]));
    }
  }

  // ----- the plan ----------------------------------------------------------------------------

  /** The baseline in the order of the plan's selections: with a check, attested only, with nothing. */
  function PlanOrder(baseline: seq<string>, registry: Registry): seq<string> {
    Filter(baseline, HasCheck(registry)) + Filter(baseline, OnlyAttested(registry))
        + Filter(baseline, HasNothing(registry))
  }

  lemma {:induction false} IdsOfIncludes(cs: seq<string>, catalog: Catalog)
    requires forall c :: c in cs ==> c in catalog
    ensures IdsOf(IncludesOf(cs, catalog)) == cs
  {
  }

  lemma ReviewedAppend(a: seq<Selection>, s: Selection)
    ensures ReviewedIds(a + [s]) == ReviewedIds(a) + IdsOf(s.includes)
  {
    assert (a + [s])[..|a|] == a;
  }

  lemma SelectionsRead(s: Selection, t: seq<Selection>, u: seq<Selection>)
    requires |t| <= 1 && |u| <= 1
    ensures ReviewedIds([s] + t + u) == ReviewedIds([s]) + ReviewedIds(t) + ReviewedIds(u)
  {
    ReviewedJoin([s], t);
    ReviewedJoin([s] + t, u);
  }

  lemma ReviewedJoin(a: seq<Selection>, t: seq<Selection>)
    requires |t| <= 1
    ensures ReviewedIds(a + t) == ReviewedIds(a) + ReviewedIds(t)
  {
    if t == [] {
      assert a + t == a;
    } else {
      assert t == [t[0]] == [] + [t[0]];
      ReviewedAppend(a, t[0]);
      ReviewedAppend([], t[0]);
    }
  }

  lemma SelectedRead(props: seq<Prop>, baseline: seq<string>, keep: string -> bool, catalog: Catalog)
    requires forall c :: c in baseline ==> c in catalog
    ensures ReviewedIds([Selected(props, baseline, keep, catalog)]) == Filter(baseline, keep)
    ensures ReviewedIds(SelectedIfAny(props, baseline, keep, catalog)) == Filter(baseline, keep)
  {
    var s := Selected(props, baseline, keep, catalog);
    FilterExact(baseline, keep);
    IdsOfIncludes(Filter(baseline, keep), catalog);
    assert [s] == [] + [s];
    ReviewedAppend([], s);
  }

  /** The report reviews exactly the controls of the plan's three selections. */
  lemma PlanRead(baseline: seq<string>, registry: Registry, catalog: Catalog)
    requires forall c :: c in baseline ==> c in catalog
    ensures ReviewedIds(Reviewed(baseline, registry, catalog)) == PlanOrder(baseline, registry)
  {
    SelectedRead([], baseline, HasCheck(registry), catalog);
    SelectedRead(ATTESTED_PROPS, baseline, OnlyAttested(registry), catalog);
    SelectedRead(UNASSESSED_PROPS, baseline, HasNothing(registry), catalog);
    SelectionsRead(Selected([], baseline, HasCheck(registry), catalog),
                   SelectedIfAny(ATTESTED_PROPS, baseline, OnlyAttested(registry), catalog),
                   SelectedIfAny(UNASSESSED_PROPS, baseline, HasNothing(registry), catalog));
  }

  lemma {:induction false} FilterCounts(cs: seq<string>, f: string -> bool, g: string -> bool, h: string -> bool)
    requires forall c :: c in cs ==> (f(c) && !g(c) && !h(c)) || (!f(c) && g(c) && !h(c)) || (!f(c) && !g(c) && h(c))
    ensures multiset(Filter(cs, f)) + multiset(Filter(cs, g)) + multiset(Filter(cs, h)) == multiset(cs)
  {
    if cs != [] {
      var rest, last := cs[..|cs| - 1], cs[|cs| - 1];
      assert cs == rest + [last];
      FilterCounts(rest, f, g, h);
      FilterNext(rest, last, f);
      FilterNext(rest, last, g);
      FilterNext(rest, last, h);
      AddLast(rest, last, cs);
      OneOfThree(multiset(Filter(rest, f)), multiset(Filter(rest, g)), multiset(Filter(rest, h)), last, f(last),
                 g(last), h(last));
    }
  }

  /** The three selections partition the baseline: every control once, in exactly one of them. */
  lemma PlanPartitionsBaseline(baseline: seq<string>, registry: Registry)
    ensures multiset(PlanOrder(baseline, registry)) == multiset(baseline)
  {
    FilterCounts(baseline, HasCheck(registry), OnlyAttested(registry), HasNothing(registry));
  }

  // ----- attestation details --------------------------------------------------------------------

  /** The last attested entry of the registry that is bound to the control. */
  function AttestingCheck(registry: Registry, control: string): Option<Check> {
    if registry == [] then None
    else
      var last := registry[|registry| - 1];
      if !last.IsAutomated() && last.Binds(control) then Some(last)
      else AttestingCheck(registry[..|registry| - 1], control)
  }

  function DetailFor(registry: Registry, control: string): Option<Detail> {
    var check := AttestingCheck(registry, control);
    if check.None? || check.value.IsAutomated() then None
    else
      var a := check.value.assessability.attestation;
      Some(Detail(a.source, a.owner, NatText(a.renewalDays), a.whyNotObservable, check.value.title))
  }

  lemma AutomatedActivity(id: string, confidence: string)
    ensures GetOr(OwnProps([Own("check-id", id), Own("confidence", confidence)] + [Own("assessability", "automated")]),
                  "assessability", "") == "automated"
  {
    OwnPropsAdd([Own("check-id", id), Own("confidence", confidence)], "assessability", "automated");
  }

  lemma AttestedActivity(id: string, confidence: string, source: string, owner: string, days: string, why: string)
    ensures var m := OwnProps([Own("check-id", id), Own("confidence", confidence)]
                       + [Own("assessability", "attested"), Own("attestation-source", source),
                          Own("attestation-owner", owner),
                          Own("attestation-renewal-days", days), Own("why-not-observable", why)]);
            && GetOr(m, "assessability", "") == "attested"
            && GetOr(m, "attestation-source", "") == source && GetOr(m, "attestation-owner", "") == owner
            && GetOr(m, "attestation-renewal-days", "") == days && GetOr(m, "why-not-observable", "") == why
  {
    var p2 := [Own("check-id", id), Own("confidence", confidence)];
    var p3 := p2 + [Own("assessability", "attested")];
    var p4 := p3 + [Own("attestation-source", source)];
    var p5 := p4 + [Own("attestation-owner", owner)];
    var p6 := p5 + [Own("attestation-renewal-days", days)];
    OwnPropsAdd(p2, "assessability", "attested");
    OwnPropsAdd(p3, "attestation-source", source);
    OwnPropsAdd(p4, "attestation-owner", owner);
    OwnPropsAdd(p5, "attestation-renewal-days", days);
    OwnPropsAdd(p6, "why-not-observable", why);
    assert p6 + [Own("why-not-observable", why)] == p2
      + [Own("assessability", "attested"), Own("attestation-source", source), Own("attestation-owner", owner),
         Own("attestation-renewal-days", days), Own("why-not-observable", why)];
  }

  /** A check's activity is read back as attested exactly when it is, with all it says about the attestation. */
  lemma ActivityRead(check: Check)
    ensures IsAttestation(ActivityOf(check)) <==> !check.IsAutomated()
    ensures check.assessability.AttestedBy? ==>
              var a := check.assessability.attestation;
              DetailOf(ActivityOf(check)) == Detail(a.source, a.owner, NatText(a.renewalDays), a.whyNotObservable,
                                                    check.title)
  {
    match check.assessability
    case Automated =>
      AutomatedActivity(check.id, ConfidenceText(check.confidence));
      assert "automated" != "attested" by { assert "automated"[1] == 'u' && "attested"[1] == 't'; }
    case AttestedBy(a) =>
      AttestedActivity(check.id, ConfidenceText(check.confidence), a.source, a.owner, NatText(a.renewalDays),
                       a.whyNotObservable);
  }

  lemma {:induction false} WithDetailRead(m: map<string, Detail>, includes: seq<Include>, d: Detail, c: string)
    ensures Find(WithDetail(m, includes, d), c) == if exists i :: i in includes && i.controlId == c then Some(d)
                                                                  else Find(m, c)
  {
    if includes != [] {
      var rest, last := includes[..|includes| - 1], includes[|includes| - 1];
      assert includes == rest + [last];
      WithDetailRead(m, rest, d, c);
    }
  }

  lemma ActivityIncludes(m: map<string, Detail>, check: Check, d: Detail, c: string)
    ensures Find(WithDetails(m, ActivityOf(check).related, d), c) == if check.Binds(c) then Some(d) else Find(m, c)
  {
    var s := ActivityOf(check).related;
    assert s[..0] == [];
    WithDetailRead(m, s[0].includes, d, c);
    if check.Binds(c) {
      var b :| b in check.controls && b.controlId == c;
      var i :| 0 <= i < |check.controls| && check.controls[i] == b;
      assert s[0].includes[i] in s[0].includes;
    }
  }

  /** The detail the report shows for a baseline control is that of the last attested entry bound to it. */
  lemma {:induction false} AttestationsRead(registry: Registry, baseline: seq<string>, c: string)
    requires c in baseline
    ensures Find(AttestationsOf(Activities(registry, baseline)), c) == DetailFor(registry, c)
  {
    if registry != [] {
      var rest, last := registry[..|registry| - 1], registry[|registry| - 1];
      AttestationsRead(rest, baseline, c);
      var before, m := Activities(rest, baseline), AttestationsOf(Activities(rest, baseline));
      if InBaseline(last, Some(baseline)) {
        assert (before + [ActivityOf(last)])[..|before|] == before;
        ActivityRead(last);
        ActivityIncludes(m, last, DetailOf(ActivityOf(last)), c);
      } else {
        assert Activities(registry, baseline) == before;
        assert !last.Binds(c);
      }
    }
  }

  // ----- the round trip -----------------------------------------------------------------------------

  /** The row a control deserves, straight from the evaluations and the registry. */
  function DirectRow(run: Run, registry: Registry, evs: seq<Evaluation>, catalog: Catalog, estateTotal: nat,
                     control: string)
    : ControlRow
  {
    var ds := Determinations(evs, control);
    if ds != [] then
      ControlRow(control, StatementOfControl(catalog, control), StatusText(Verdict(ds)),
                 Some(ConfidenceText(ConfidenceOf(ds))), None,
                 Figures(PopulationOf(ds, EstateFor(ds, estateTotal)), BasisText(ds)), None)
    else
      ControlRow(control, StatementOfControl(catalog, control), "undetermined", None,
                 Some(ReasonText(WhyUndetermined(registry, evs, control))), map[], DetailFor(registry, control))
  }

  lemma FiguresRead(p: Population, basis: string, status: string, confidence: string, key: string)
    ensures var m := WithFigures(p, basis, status, confidence, key);
            && GetOr(m, "assessment-status", "undetermined") == status && Find(m, "confidence") == Some(confidence)
            && PopulationFigures(m) == Figures(p, basis)
  {
    var m := WithFigures(p, basis, status, confidence, key);
    assert "population-"[0] == 'p' && "assessment-status"[0] == 'a' && "confidence"[0] == 'c'
        && "aggregation-key"[0] == 'a';
    assert "population-" <= "population-total" && "population-" <= "population-assessed"
        && "population-" <= "population-failing";
    assert "population-" <= "population-na" && "population-" <= "population-basis";
    assert "assessment-status"[1] == 's' && "aggregation-key"[1] == 'g';
    assert PopulationFigures(m).Keys == Figures(p, basis).Keys;
  }

  /** A control with a finding of its own is reported by it. */
  lemma DeterminedRow(run: Run, registry: Registry, evs: seq<Evaluation>, catalog: Catalog, estateTotal: nat,
                      s: Sources, c: string)
    requires Determinations(evs, c) != []
    requires c in s.findings && s.findings[c] == OwnProps(FindingPropsFor(run, evs, estateTotal, c))
    ensures RowOf(s, catalog, c) == DirectRow(run, registry, evs, catalog, estateTotal, c)
  {
    var ds := Determinations(evs, c);
    var p := PopulationOf(ds, EstateFor(ds, estateTotal));
    FindingPropsRead(run, ds, p);
    FiguresRead(p, BasisText(ds), StatusText(Verdict(ds)), ConfidenceText(ConfidenceOf(ds)),
                run.systemId + "/" + run.baseline);
  }

  /** A control without one is reported with its recorded reason. */
  lemma UndeterminedRow(run: Run, registry: Registry, evs: seq<Evaluation>, catalog: Catalog, estateTotal: nat,
                        s: Sources, c: string)
    requires Determinations(evs, c) == [] && c !in s.findings && c !in s.observed
    requires c in s.emitted && s.emitted[c] == ReasonText(WhyUndetermined(registry, evs, c))
    requires Find(s.attestations, c) == DetailFor(registry, c)
    ensures RowOf(s, catalog, c) == DirectRow(run, registry, evs, catalog, estateTotal, c)
  {
  }

  /** Every finding of the results is read back under its control, and only determined controls have one. */
  lemma ResultsFinding(run: Run, baseline: seq<string>, evs: seq<Evaluation>, registry: Registry, catalog: Catalog,
                       populationTotal: Option<nat>, c: string)
    requires WellFormed(catalog) && KnownControls(baseline, evs, catalog)
    ensures var m := FindingsByControl(ResultsOf(run, baseline, evs, registry, catalog, populationTotal).findings);
            && (c in m <==> Determinations(evs, c) != [])
            && (c in m ==> m[c] == OwnProps(FindingPropsFor(run, evs, EstateTotal(evs, populationTotal), c)))
  {
    FindingsRead(run, SortedKeys(BoundControls(evs)), evs, catalog, EstateTotal(evs, populationTotal), c);
    BoundExact(evs, c);
    if Determinations(evs, c) != [] {
      assert Determinations(evs, c)[0] in Contributing(evs, c);
    }
  }

  /** The reason of every undetermined control of the baseline is in the results. */
  lemma ResultsReason(run: Run, baseline: seq<string>, evs: seq<Evaluation>, registry: Registry, catalog: Catalog,
                      populationTotal: Option<nat>, c: string)
    requires WellFormed(catalog) && KnownControls(baseline, evs, catalog) && c in baseline
        && Determinations(evs, c) == []
    ensures var results := ResultsOf(run, baseline, evs, registry, catalog, populationTotal);
            && c in EmittedReasons(results.props)
            && EmittedReasons(results.props)[c] == ReasonText(WhyUndetermined(registry, evs, c))
            && c !in ObservedReasons(results.observations)
  {
    var estateTotal, reasons := EstateTotal(evs, populationTotal), WithoutVerdict(baseline, registry, evs);
    var findings := FindingsFor(run, SortedKeys(BoundControls(evs)), evs, catalog, estateTotal);
    var left := |Undetermined(baseline, findings)|;
    var before := RunProps(run, |baseline|, |findings|, left, estateTotal, |SubjectsOf(evs)|);
    DeterminedExact(evs, c);
    RunPropsAreNoReasons(run, |baseline|, |findings|, left, estateTotal, |SubjectsOf(evs)|);
    ReasonsRead(before, reasons, SortedKeys(reasons.Keys), c);
    ObservationsNameNoControl(run, evs);
  }

  /** What the report makes of one reviewed control is its direct row. */
  lemma RowRead(run: Run, baseline: seq<string>, evs: seq<Evaluation>, registry: Registry, catalog: Catalog,
                populationTotal: Option<nat>, c: string)
    requires WellFormed(catalog) && KnownControls(baseline, evs, catalog) && c in baseline
    ensures var plan := Plan(Activities(registry, baseline), Reviewed(baseline, registry, catalog));
            var results := ResultsOf(run, baseline, evs, registry, catalog, populationTotal);
            RowOf(SourcesOf(plan, results), catalog, c)
              == DirectRow(run, registry, evs, catalog, EstateTotal(evs, populationTotal), c)
  {
    var plan := Plan(Activities(registry, baseline), Reviewed(baseline, registry, catalog));
    var results := ResultsOf(run, baseline, evs, registry, catalog, populationTotal);
    var s := SourcesOf(plan, results);
    ResultsFinding(run, baseline, evs, registry, catalog, populationTotal, c);
    if Determinations(evs, c) != [] {
      DeterminedRow(run, registry, evs, catalog, EstateTotal(evs, populationTotal), s, c);
    } else {
      ResultsReason(run, baseline, evs, registry, catalog, populationTotal, c);
      AttestationsRead(registry, baseline, c);
      UndeterminedRow(run, registry, evs, catalog, EstateTotal(evs, populationTotal), s, c);
    }
  }

  function MakeDirectRow(run: Run, registry: Registry, evs: seq<Evaluation>, catalog: Catalog,
                         estateTotal: nat): string -> ControlRow {
    c => DirectRow(run, registry, evs, catalog, estateTotal, c)
  }

  function DirectRows(run: Run, registry: Registry, evs: seq<Evaluation>, catalog: Catalog, estateTotal: nat,
                      controls: seq<string>)
    : seq<ControlRow>
  {
    EachRow(controls, MakeDirectRow(run, registry, evs, catalog, estateTotal))
  }

  lemma SameRows(controls: seq<string>, f: string -> ControlRow, g: string -> ControlRow)
    requires forall c :: c in controls ==> f(c) == g(c)
    ensures EachRow(controls, f) == EachRow(controls, g)
  {
  }

  lemma RunPropsRead(run: Run, a: nat, b: nat, c: nat, inScope: nat, assessed: nat)
    ensures var m := OwnProps(RunProps(run, a, b, c, inScope, assessed));
            && ReadCount(m, "subjects-assessed") == Some(assessed) && ReadCount(m, "subjects-in-scope") == Some(inScope)
            && GetOr(m, "system-id", "") == run.systemId && GetOr(m, "run-id", "") == run.runId
            && GetOr(m, "baseline", "") == run.baseline && GetOr(m, "catalog-version", "") == run.version
  {
    NineProps(run.version, run.baseline, run.systemId, run.runId, NatText(a), NatText(b), NatText(c),
              NatText(inScope), NatText(assessed));
    NatRoundTrip(inScope);
    NatRoundTrip(assessed);
  }

  lemma NineProps(a: string, b: string, c: string, d: string, e: string, f: string, g: string, h: string, i: string)
    ensures OwnProps([Own("catalog-version", a), Own("baseline", b), Own("system-id", c), Own("run-id", d),
                      Own("controls-in-baseline", e), Own("controls-determined", f), Own("controls-unassessed", g),
                      Own("subjects-in-scope", h), Own("subjects-assessed", i)])
         == map["catalog-version" := a, "baseline" := b, "system-id" := c, "run-id" := d, "controls-in-baseline" := e,
                "controls-determined" := f, "controls-unassessed" := g, "subjects-in-scope" := h,
                    "subjects-assessed" := i]
  {
    var p1 := [Own("catalog-version", a)];
    var p2 := p1 + [Own("baseline", b)];
    var p3 := p2 + [Own("system-id", c)];
    var p4 := p3 + [Own("run-id", d)];
    var p5 := p4 + [Own("controls-in-baseline", e)];
    var p6 := p5 + [Own("controls-determined", f)];
    var p7 := p6 + [Own("controls-unassessed", g)];
    var p8 := p7 + [Own("subjects-in-scope", h)];
    assert p1 == [] + [Own("catalog-version", a)];
    OwnPropsAdd([], "catalog-version", a);
    OwnPropsAdd(p1, "baseline", b);
    OwnPropsAdd(p2, "system-id", c);
    OwnPropsAdd(p3, "run-id", d);
    OwnPropsAdd(p4, "controls-in-baseline", e);
    OwnPropsAdd(p5, "controls-determined", f);
    OwnPropsAdd(p6, "controls-unassessed", g);
    OwnPropsAdd(p7, "subjects-in-scope", h);
    OwnPropsAdd(p8, "subjects-assessed", i);
    assert p8 + [Own("subjects-assessed", i)] ==
      [Own("catalog-version", a), Own("baseline", b), Own("system-id", c), Own("run-id", d),
       Own("controls-in-baseline", e), Own("controls-determined", f), Own("controls-unassessed", g),
       Own("subjects-in-scope", h), Own("subjects-assessed", i)];
  }

  /** The plan and the results a run writes. */
  function PlanOf(baseline: seq<string>, registry: Registry, catalog: Catalog): Plan
    requires forall c :: c in baseline ==> c in catalog
  {
    Plan(Activities(registry, baseline), Reviewed(baseline, registry, catalog))
  }

  /**
   The round trip. Written out and read back, a run's documents give the report the evaluations themselves call for:
   its rows are the direct rows of the baseline, sorted by control, and its headline figures are the run's own.
   */
  lemma DocumentsRoundTrip(run: Run, baseline: seq<string>, evs: seq<Evaluation>, registry: Registry, catalog: Catalog,
                           populationTotal: Option<nat>)
    requires WellFormed(catalog) && KnownControls(baseline, evs, catalog)
    ensures var estateTotal := EstateTotal(evs, populationTotal);
            ReportOf(PlanOf(baseline, registry, catalog),
                     ResultsOf(run, baseline, evs, registry, catalog, populationTotal), catalog)
              == Ok(Report(run.systemId, run.baseline, run.version, run.runId, |SubjectsOf(evs)|, estateTotal,
                           SortRows(DirectRows(run, registry, evs, catalog, estateTotal,
                                               PlanOrder(baseline, registry)))))
  {
    var estateTotal, order := EstateTotal(evs, populationTotal), PlanOrder(baseline, registry);
    var plan, results := PlanOf(baseline, registry, catalog),
        ResultsOf(run, baseline, evs, registry, catalog, populationTotal);
    PlanRead(baseline, registry, catalog);
    PlanOrderIsBaseline(baseline, registry);
    RowsRead(run, baseline, evs, registry, catalog, populationTotal, SourcesOf(plan, results), order);
    HeadlineRead(run, baseline, evs, registry, catalog, populationTotal);
    ReportIs(plan, results, catalog, run, |SubjectsOf(evs)|, estateTotal, order,
             DirectRows(run, registry, evs, catalog, estateTotal, order));
  }

  /** The properties of the results as the head of the report needs them. */
  ghost predicate HeadedBy(m: map<string, string>, run: Run, assessed: nat, inScope: nat) {
    && ReadCount(m, "subjects-assessed") == Some(assessed)
    && ReadCount(m, "subjects-in-scope") == Some(inScope)
    && GetOr(m, "system-id", "") == run.systemId && GetOr(m, "run-id", "") == run.runId
    && GetOr(m, "baseline", "") == run.baseline && GetOr(m, "catalog-version", "") == run.version
  }

  lemma ReportIs(plan: Plan, results: Results, catalog: Catalog, run: Run, assessed: nat, inScope: nat,
                 order: seq<string>, rows: seq<ControlRow>)
    requires HeadedBy(OwnProps(results.props), run, assessed, inScope)
    requires ReviewedIds(plan.reviewed) == order && RowsOf(SourcesOf(plan, results), catalog, order) == rows
    ensures ReportOf(plan, results, catalog)
         == Ok(Report(run.systemId, run.baseline, run.version, run.runId, assessed, inScope, SortRows(rows)))
  {
  }

  /** What the report gathers from a run's two documents. */
  function RunSources(run: Run, baseline: seq<string>, evs: seq<Evaluation>, registry: Registry, catalog: Catalog,
                      populationTotal: Option<nat>): Sources
    requires KnownControls(baseline, evs, catalog)
  {
    SourcesOf(PlanOf(baseline, registry, catalog), ResultsOf(run, baseline, evs, registry, catalog, populationTotal))
  }

  lemma RunRowRead(run: Run, baseline: seq<string>, evs: seq<Evaluation>, registry: Registry, catalog: Catalog,
                   populationTotal: Option<nat>, s: Sources, c: string)
    requires WellFormed(catalog) && KnownControls(baseline, evs, catalog) && c in baseline
    requires s == RunSources(run, baseline, evs, registry, catalog, populationTotal)
    ensures MakeRow(s, catalog)(c) == MakeDirectRow(run, registry, evs, catalog, EstateTotal(evs, populationTotal))(c)
  {
    RowRead(run, baseline, evs, registry, catalog, populationTotal, c);
  }

  lemma PlanOrderIsBaseline(baseline: seq<string>, registry: Registry)
    ensures forall c :: c in PlanOrder(baseline, registry) ==> c in baseline
  {
    FilterExact(baseline, HasCheck(registry));
    FilterExact(baseline, OnlyAttested(registry));
    FilterExact(baseline, HasNothing(registry));
  }

  lemma RowsRead(run: Run, baseline: seq<string>, evs: seq<Evaluation>, registry: Registry, catalog: Catalog,
                 populationTotal: Option<nat>, s: Sources, order: seq<string>)
    requires WellFormed(catalog) && KnownControls(baseline, evs, catalog)
    requires s == RunSources(run, baseline, evs, registry, catalog, populationTotal)
    requires forall c :: c in order ==> c in baseline
    ensures RowsOf(s, catalog, order) == DirectRows(run, registry, evs, catalog, EstateTotal(evs, populationTotal),
                                                    order)
  {
    forall c | c in order
      ensures MakeRow(s, catalog)(c) == MakeDirectRow(run, registry, evs, catalog, EstateTotal(evs, populationTotal))(c)
    {
      RunRowRead(run, baseline, evs, registry, catalog, populationTotal, s, c);
    }
    SameRows(order, MakeRow(s, catalog), MakeDirectRow(run, registry, evs, catalog, EstateTotal(evs, populationTotal)));
  }

  lemma HeadlineSurvives(before: seq<Prop>, reasons: map<string, Reason>, keys: seq<string>, name: string)
    requires name != "undetermined" && forall k :: k in keys ==> k in reasons
    ensures var m := OwnProps(before + UndeterminedProps(reasons, keys));
            ReadCount(m, name) == ReadCount(OwnProps(before), name)
                && GetOr(m, name, "") == GetOr(OwnProps(before), name, "")
  {
    RunPropsSurvive(before, reasons, keys, name);
  }

  lemma HeadlineFrom(before: seq<Prop>, reasons: map<string, Reason>, keys: seq<string>)
    requires forall k :: k in keys ==> k in reasons
    ensures var m, n := OwnProps(before + UndeterminedProps(reasons, keys)), OwnProps(before);
            && ReadCount(m, "subjects-assessed") == ReadCount(n, "subjects-assessed")
            && ReadCount(m, "subjects-in-scope") == ReadCount(n, "subjects-in-scope")
            && GetOr(m, "system-id", "") == GetOr(n, "system-id", "")
                && GetOr(m, "run-id", "") == GetOr(n, "run-id", "")
            && GetOr(m, "baseline", "") == GetOr(n, "baseline", "")
            && GetOr(m, "catalog-version", "") == GetOr(n, "catalog-version", "")
  {
    assert "undetermined"[0] == 'u';
    HeadlineSurvives(before, reasons, keys, "subjects-assessed");
    HeadlineSurvives(before, reasons, keys, "subjects-in-scope");
    HeadlineSurvives(before, reasons, keys, "system-id");
    HeadlineSurvives(before, reasons, keys, "run-id");
    HeadlineSurvives(before, reasons, keys, "baseline");
    HeadlineSurvives(before, reasons, keys, "catalog-version");
  }

  lemma HeadlineRead(run: Run, baseline: seq<string>, evs: seq<Evaluation>, registry: Registry, catalog: Catalog,
                     populationTotal: Option<nat>)
    requires KnownControls(baseline, evs, catalog)
    ensures HeadedBy(OwnProps(ResultsOf(run, baseline, evs, registry, catalog, populationTotal).props), run,
                     |SubjectsOf(evs)|, EstateTotal(evs, populationTotal))
  {
    var estateTotal := EstateTotal(evs, populationTotal);
    var reasons := WithoutVerdict(baseline, registry, evs);
    var findings := FindingsFor(run, SortedKeys(BoundControls(evs)), evs, catalog, estateTotal);
    var undetermined := Undetermined(baseline, findings);
    RunPropsRead(run, |baseline|, |findings|, |undetermined|, estateTotal, |SubjectsOf(evs)|);
    HeadlineFrom(RunProps(run, |baseline|, |findings|, |undetermined|, estateTotal, |SubjectsOf(evs)|),
                 reasons, SortedKeys(reasons.Keys));
  }
}
