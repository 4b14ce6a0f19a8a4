/** The headline counts of a run's results against its baseline. */
module CountTheorems {
  import opened Text
  import opened Json
  import opened Contract
  import opened Registry
  import opened Evaluate
  import opened Oscal
  import opened Order
  import opened Emit
  import opened Report
  import opened RoundTrip
  import opened ReportTheorems

  // ----- lists without repeats ----------------------------------------------------------

  function Members(cs: seq<string>): set<string> {
    set c | c in cs
  }

  lemma {:induction false} DistinctSize(cs: seq<string>)
    requires Distinct(cs)
    ensures |Members(cs)| == |cs|
  {
    if cs != [] {
      var rest, last := cs[..|cs| - 1], cs[|cs| - 1];
      assert cs == rest + [last];
      DistinctSize(rest);
      assert last !in rest;
      assert Members(cs) == Members(rest) + {last};
    }
  }

  lemma {:induction false} FilterDistinct(cs: seq<string>, keep: string -> bool)
    requires Distinct(cs)
    ensures Distinct(Filter(cs, keep))
  {
    if cs != [] {
      var rest, last := cs[..|cs| - 1], cs[|cs| - 1];
      assert cs == rest + [last];
      FilterDistinct(rest, keep);
      FilterExact(rest, keep);
      assert last !in rest;
    }
  }

  // ----- how many findings ----------------------------------------------------------------

  function MakesOne(make: string -> seq<Finding>): string -> bool {
    c => make(c) != []
  }

  lemma {:induction false} CollectCount(controls: seq<string>, make: string -> seq<Finding>)
    requires forall c :: |make(c)| <= 1
    ensures |Collect(controls, make)| == |Filter(controls, MakesOne(make))|
  {
    if controls != [] {
      CollectCount(controls[..|controls| - 1], make);
    }
  }

  lemma AtMostOne(run: Run, evs: seq<Evaluation>, catalog: Catalog, estateTotal: nat, c: string)
    ensures |MakeFinding(run, evs, catalog, estateTotal)(c)| <= 1
    ensures MakeFinding(run, evs, catalog, estateTotal)(c) != [] <==> Determinations(evs, c) != [] && c in catalog
  {
  }

  lemma DeterminedIsBound(evs: seq<Evaluation>, c: string)
    ensures c in DeterminedControls(evs) <==> Determinations(evs, c) != []
    ensures c in DeterminedControls(evs) ==> c in BoundControls(evs)
  {
    DeterminedControlsExact(evs, c);
    DeterminedExact(evs, c);
  }

  /** There is a finding for each determined control and no other. */
  lemma FindingsCount(run: Run, evs: seq<Evaluation>, catalog: Catalog, estateTotal: nat)
    requires forall c :: c in BoundControls(evs) ==> c in catalog
    ensures |FindingsFor(run, SortedKeys(BoundControls(evs)), evs, catalog, estateTotal)| == |DeterminedControls(evs)|
  {
    var make, controls := MakeFinding(run, evs, catalog, estateTotal), SortedKeys(BoundControls(evs));
    forall c ensures |make(c)| <= 1 && (make(c) != [] <==> Determinations(evs, c) != [] && c in catalog) {
      AtMostOne(run, evs, catalog, estateTotal, c);
    }
    CollectCount(controls, make);
    FilterDistinct(controls, MakesOne(make));
    FilterExact(controls, MakesOne(make));
    DistinctSize(Filter(controls, MakesOne(make)));
    forall c ensures c in Members(Filter(controls, MakesOne(make))) <==> c in DeterminedControls(evs) {
      DeterminedIsBound(evs, c);
    }
    assert Members(Filter(controls, MakesOne(make))) == DeterminedControls(evs);
  }

  lemma UndeterminedCount(run: Run, baseline: seq<string>, evs: seq<Evaluation>, catalog: Catalog, estateTotal: nat)
    requires WellFormed(catalog) && KnownControls(baseline, evs, catalog) && Distinct(baseline)
    ensures |Undetermined(baseline, FindingsFor(run, SortedKeys(BoundControls(evs)), evs, catalog, estateTotal))|
         == |Members(baseline) - DeterminedControls(evs)|
  {
    var findings := FindingsFor(run, SortedKeys(BoundControls(evs)), evs, catalog, estateTotal);
    FilterDistinct(baseline, WithoutFinding(findings));
    FilterExact(baseline, WithoutFinding(findings));
    DistinctSize(Undetermined(baseline, findings));
    forall c ensures c in TitleControls(findings) <==> c in DeterminedControls(evs) {
      TitlesExact(run, evs, catalog, estateTotal, c);
      DeterminedControlsExact(evs, c);
    }
    assert Members(Undetermined(baseline, findings)) == Members(baseline) - DeterminedControls(evs);
  }

  lemma Overlapping<T>(d: set<T>, b: set<T>)
    ensures |d| + |b - d| == |b| + |d - b|
    ensures |d - b| == 0 <==> d <= b
  {
    assert d + (b - d) == b + (d - b);
    assert |d + (b - d)| == |d| + |b - d|;
    assert |b + (d - b)| == |b| + |d - b|;
    if |d - b| == 0 { assert d - b == {}; }
  }

  /**
   `controls-determined` and `controls-unassessed` exceed the baseline by the determined controls outside it, and so
   add up to it exactly when every determined control lies in the baseline.
   */
  lemma ControlCountsExact(run: Run, baseline: seq<string>, evs: seq<Evaluation>, registry: Registry, catalog: Catalog,
                           populationTotal: Option<nat>)
    requires WellFormed(catalog) && KnownControls(baseline, evs, catalog) && Distinct(baseline)
    ensures var findings := ResultsOf(run, baseline, evs, registry, catalog, populationTotal).findings;
            var counted := |findings| + |Undetermined(baseline, findings)|;
            && counted == |baseline| + |DeterminedControls(evs) - Members(baseline)|
            && (counted == |baseline| <==> DeterminedControls(evs) <= Members(baseline))
  {
    var estateTotal := EstateTotal(evs, populationTotal);
    FindingsCount(run, evs, catalog, estateTotal);
    UndeterminedCount(run, baseline, evs, catalog, estateTotal);
    DistinctSize(baseline);
    Overlapping(DeterminedControls(evs), Members(baseline));
  }

  /** One check bound to a control inside the baseline and to one outside already makes the counts exceed it. */
  lemma CountsExceedBaseline(run: Run, baseline: seq<string>, evs: seq<Evaluation>, ev: Evaluation, inside: Binding,
                             outside: Binding, registry: Registry, catalog: Catalog, populationTotal: Option<nat>)
    requires WellFormed(catalog) && inside.controlId in catalog && outside.controlId in catalog
    requires inside.controlId != outside.controlId && baseline == [inside.controlId] && evs == [ev]
    requires ev.Status().EmitsFinding() && ev.check.controls == [inside, outside]
    ensures KnownControls(baseline, evs, catalog)
    ensures var findings := ResultsOf(run, baseline, evs, registry, catalog, populationTotal).findings;
            |findings| + |Undetermined(baseline, findings)| == 2
  {
    BoundByOne(ev, inside, outside);
    OneBeyond(baseline, evs, inside.controlId, outside.controlId);
    ControlCountsExact(run, baseline, evs, registry, catalog, populationTotal);
  }

  lemma OneBeyond(baseline: seq<string>, evs: seq<Evaluation>, inside: string, outside: string)
    requires inside != outside && baseline == [inside] && DeterminedControls(evs) == {inside, outside}
    ensures Distinct(baseline) && |DeterminedControls(evs) - Members(baseline)| == 1
  {
    assert DeterminedControls(evs) - Members(baseline) == {outside};
  }

  lemma BoundByOne(ev: Evaluation, inside: Binding, outside: Binding)
    requires ev.Status().EmitsFinding() && ev.check.controls == [inside, outside]
    ensures DeterminedControls([ev]) == {inside.controlId, outside.controlId} == BoundControls([ev])
  {
    assert ev in [ev] && inside in ev.check.controls && outside in ev.check.controls;
  }

  // ----- as the document tells them ------------------------------------------------------------

  lemma CountsOfRun(run: Run, a: nat, b: nat, c: nat, inScope: nat, assessed: nat)
    ensures var m := OwnProps(RunProps(run, a, b, c, inScope, assessed));
            && ReadCount(m, "controls-in-baseline") == Some(a) && ReadCount(m, "controls-determined") == Some(b)
            && ReadCount(m, "controls-unassessed") == Some(c)
  {
    NineProps(run.version, run.baseline, run.systemId, run.runId, NatText(a), NatText(b), NatText(c),
              NatText(inScope), NatText(assessed));
    NatRoundTrip(a);
    NatRoundTrip(b);
    NatRoundTrip(c);
  }

  lemma CountsSurvive(before: seq<Prop>, reasons: map<string, Reason>, keys: seq<string>)
    requires forall k :: k in keys ==> k in reasons
    ensures var m, n := OwnProps(before + UndeterminedProps(reasons, keys)), OwnProps(before);
            && ReadCount(m, "controls-in-baseline") == ReadCount(n, "controls-in-baseline")
            && ReadCount(m, "controls-determined") == ReadCount(n, "controls-determined")
            && ReadCount(m, "controls-unassessed") == ReadCount(n, "controls-unassessed")
  {
    assert "undetermined"[0] == 'u';
    HeadlineSurvives(before, reasons, keys, "controls-in-baseline");
    HeadlineSurvives(before, reasons, keys, "controls-determined");
    HeadlineSurvives(before, reasons, keys, "controls-unassessed");
  }

  /** Read back from the results, the three counts are the ones taken here. */
  lemma CountsRead(run: Run, baseline: seq<string>, evs: seq<Evaluation>, registry: Registry, catalog: Catalog,
                   populationTotal: Option<nat>)
    requires KnownControls(baseline, evs, catalog)
    ensures var results := ResultsOf(run, baseline, evs, registry, catalog, populationTotal);
            var m := OwnProps(results.props);
            && ReadCount(m, "controls-in-baseline") == Some(|baseline|)
            && ReadCount(m, "controls-determined") == Some(|results.findings|)
            && ReadCount(m, "controls-unassessed") == Some(|Undetermined(baseline, results.findings)|)
  {
    var estateTotal, reasons := EstateTotal(evs, populationTotal), WithoutVerdict(baseline, registry, evs);
    var findings := FindingsFor(run, SortedKeys(BoundControls(evs)), evs, catalog, estateTotal);
    var left := Undetermined(baseline, findings);
    CountsOfRun(run, |baseline|, |findings|, |left|, estateTotal, |SubjectsOf(evs)|);
    CountsSurvive(RunProps(run, |baseline|, |findings|, |left|, estateTotal, |SubjectsOf(evs)|), reasons,
                  SortedKeys(reasons.Keys));
  }
}
