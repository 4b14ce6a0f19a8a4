/** What a report says of each control, and the arithmetic of its populations and counts. */
module ReportTheorems {
  import opened Text
  import opened Lists
  import opened Json
  import opened Contract
  import opened Registry
  import opened Evaluate
  import opened EvaluateTheorems
  import opened Oscal
  import opened Order
  import opened Emit
  import opened Report
  import opened RoundTrip

  // ----- one row per control ------------------------------------------------------------

  ghost predicate Distinct(cs: seq<string>) {
    forall i, j :: 0 <= i < j < |cs| ==> cs[i] != cs[j]
  }

  ghost predicate RowsSorted(rows: seq<ControlRow>) {
    forall i, j :: 0 <= i < j < |rows| ==> LessEq(rows[i].controlId, rows[j].controlId)
  }

  lemma ControlIdsCompare()
    ensures Preorder(ByControlId())
  {
    var leq := ByControlId();
    forall a, b ensures leq(a, b) || leq(b, a) {
      LessEqTotal(a.controlId, b.controlId);
    }
    forall a, b, c | leq(a, b) && leq(b, c) ensures leq(a, c) {
      LessEqTransitive(a.controlId, b.controlId, c.controlId);
    }
  }

  lemma SortRowsSorted(rows: seq<ControlRow>)
    ensures RowsSorted(SortRows(rows)) && multiset(SortRows(rows)) == multiset(rows)
  {
    ControlIdsCompare();
    SortOrders(rows, ByControlId());
    SortKeeps(rows, ByControlId());
  }

  /** The rows of a run's report. */
  function ReportRows(run: Run, baseline: seq<string>, evs: seq<Evaluation>, registry: Registry, catalog: Catalog,
                      populationTotal: Option<nat>): seq<ControlRow>
  {
    SortRows(DirectRows(run, registry, evs, catalog, EstateTotal(evs, populationTotal), PlanOrder(baseline, registry)))
  }

  lemma {:induction false} RowIdsCount(rows: seq<ControlRow>, f: string -> ControlRow, controls: seq<string>)
    requires multiset(rows) == multiset(EachRow(controls, f)) && forall c :: f(c).controlId == c
    ensures forall row :: row in rows ==> row == f(row.controlId)
    ensures |rows| == |controls|
    ensures forall c :: c in controls <==> exists row :: row in rows && row.controlId == c
  {
    var es := EachRow(controls, f);
    assert |rows| == |multiset(rows)| == |es|;
    forall row | row in rows ensures row == f(row.controlId) && row.controlId in controls {
      assert row in multiset(rows);
      var i :| 0 <= i < |es| && es[i] == row;
    }
    forall c | c in controls ensures f(c) in rows {
      var i :| 0 <= i < |controls| && controls[i] == c;
      assert es[i] in multiset(es);
    }
  }

  /** One row for each listed control, no control twice, each row the one made for its control. */
  ghost predicate RowsFor(rows: seq<ControlRow>, baseline: seq<string>, f: string -> ControlRow) {
    && |rows| == |baseline|
    && (forall i, j :: 0 <= i < j < |rows| ==> rows[i].controlId != rows[j].controlId)
    && (forall row :: row in rows ==> row == f(row.controlId))
    && (forall c :: c in baseline <==> exists row :: row in rows && row.controlId == c)
  }

  /** Rearranging one row per listed control: nothing lost and nothing twice. */
  lemma RearrangedRows(rows: seq<ControlRow>, order: seq<string>, baseline: seq<string>, f: string -> ControlRow)
    requires multiset(rows) == multiset(EachRow(order, f)) && forall c :: f(c).controlId == c
    requires multiset(order) == multiset(baseline) && Distinct(baseline)
    ensures RowsFor(rows, baseline, f)
  {
    RowIdsCount(rows, f, order);
    SameMembers(order, baseline);
    DistinctRows(rows, f, order, baseline);
  }

  /** For a baseline without repeats the report has exactly one row per control, in order, each its direct row. */
  lemma OneRowPerControl(run: Run, baseline: seq<string>, evs: seq<Evaluation>, registry: Registry, catalog: Catalog,
                         populationTotal: Option<nat>)
    requires Distinct(baseline)
    ensures var rows := ReportRows(run, baseline, evs, registry, catalog, populationTotal);
            && RowsSorted(rows)
            && RowsFor(rows, baseline, MakeDirectRow(run, registry, evs, catalog, EstateTotal(evs, populationTotal)))
  {
    var estateTotal := EstateTotal(evs, populationTotal);
    PlanPartitionsBaseline(baseline, registry);
    var make, order := MakeDirectRow(run, registry, evs, catalog, estateTotal), PlanOrder(baseline, registry);
    assert forall c :: make(c).controlId == c;
    SortRowsSorted(EachRow(order, make));
    RearrangedRows(SortRows(EachRow(order, make)), order, baseline, make);
  }

  lemma {:induction false} DistinctMultiset(cs: seq<string>)
    requires Distinct(cs)
    ensures forall c :: multiset(cs)[c] <= 1
  {
    if cs != [] {
      var rest, last := cs[..|cs| - 1], cs[|cs| - 1];
      assert cs == rest + [last];
      DistinctMultiset(rest);
      assert last !in rest;
    }
  }

  lemma DistinctRows(rows: seq<ControlRow>, f: string -> ControlRow, order: seq<string>, baseline: seq<string>)
    requires multiset(rows) == multiset(EachRow(order, f)) && (forall c :: f(c).controlId == c)
    requires multiset(order) == multiset(baseline) && Distinct(baseline)
    requires forall row :: row in rows ==> row == f(row.controlId)
    ensures forall i, j :: 0 <= i < j < |rows| ==> rows[i].controlId != rows[j].controlId
  {
    DistinctMultiset(baseline);
    forall c ensures multiset(EachRow(order, f))[f(c)] == multiset(order)[c] {
      CountRowsOf(order, f, c);
    }
    forall i, j | 0 <= i < j < |rows| ensures rows[i].controlId != rows[j].controlId {
      if rows[i].controlId == rows[j].controlId {
        assert rows[i] == rows[j] == f(rows[i].controlId);
        TwiceInMultiset(rows, i, j);
      }
    }
  }

  lemma {:induction false} CountRowsOf(order: seq<string>, f: string -> ControlRow, c: string)
    requires forall k :: f(k).controlId == k
    ensures multiset(EachRow(order, f))[f(c)] == multiset(order)[c]
  {
    if order != [] {
      var rest, last := order[..|order| - 1], order[|order| - 1];
      CountRowsOf(rest, f, c);
      assert order == rest + [last];
      assert f(last) == f(c) <==> last == c by { assert f(last).controlId == last && f(c).controlId == c; }
    }
  }

  lemma TwiceInMultiset<T>(s: seq<T>, i: nat, j: nat)
    requires i < j < |s| && s[i] == s[j]
    ensures multiset(s)[s[i]] >= 2
  {
    assert s == s[..i] + [s[i]] + s[i + 1..j] + [s[j]] + s[j + 1..];
  }

  // ----- what a row says ------------------------------------------------------------------

  /** The evaluation reached a verdict that bears on the control. */
  ghost predicate Bears(evs: seq<Evaluation>, c: string, e: Evaluation) {
    e in evs && e.check.Binds(c) && e.Status().EmitsFinding()
  }

  /** A row tells what the evaluations say: a failure if anything failed, not applicable only if all agree. */
  ghost predicate TellsStatus(row: ControlRow, evs: seq<Evaluation>, c: string) {
    && (row.status == "undetermined" <==> !Determined(evs, c))
    && (row.status == "not-satisfied" <==> exists e :: Bears(evs, c, e) && e.Status().NotSatisfied?)
    && (row.status == "not-applicable" <==>
          Determined(evs, c) && forall e :: Bears(evs, c, e) ==> e.Status().NotApplicable?)
    && (row.status == "satisfied" <==>
          && Determined(evs, c) && (forall e :: Bears(evs, c, e) ==> !e.Status().NotSatisfied?)
          && exists e :: Bears(evs, c, e) && e.Status().Satisfied?)
  }

  /** A verdict is reported exactly as it was reached. */
  lemma StatusExact(run: Run, registry: Registry, evs: seq<Evaluation>, catalog: Catalog, estateTotal: nat, c: string)
    ensures TellsStatus(DirectRow(run, registry, evs, catalog, estateTotal, c), evs, c)
  {
    var ds := Determinations(evs, c);
    DeterminedExact(evs, c);
    assert forall e :: e in ds <==> Bears(evs, c, e);
    if ds != [] { VerdictExact(ds); }
    RowStatus(run, registry, evs, catalog, estateTotal, c);
  }

  /** The verdict on a list of determinations. */
  lemma VerdictExact(ds: seq<Evaluation>)
    requires ds != [] && forall e :: e in ds ==> e.Status().EmitsFinding()
    ensures Verdict(ds).NotSatisfied? <==> exists e :: e in ds && e.Status().NotSatisfied?
    ensures Verdict(ds).NotApplicable? <==> forall e :: e in ds ==> e.Status().NotApplicable?
    ensures Verdict(ds).Satisfied? <==>
            (forall e :: e in ds ==> !e.Status().NotSatisfied?) && exists e :: e in ds && e.Status().Satisfied?
  {
    assert ds[0] in ds;
  }

  lemma RowStatus(run: Run, registry: Registry, evs: seq<Evaluation>, catalog: Catalog, estateTotal: nat, c: string)
    ensures var row, ds := DirectRow(run, registry, evs, catalog, estateTotal, c), Determinations(evs, c);
            && (row.status == "undetermined" <==> ds == [])
            && (forall s: Status :: ds != [] ==> (row.status == StatusText(s) <==> Verdict(ds) == s))
            && (forall s: Status :: ds == [] ==> row.status != StatusText(s))
  {
    StatusTextsDiffer();
  }

  lemma StatusTextsDiffer()
    ensures forall s: Status, t: Status :: StatusText(s) == StatusText(t) ==> s == t
    ensures forall s: Status :: StatusText(s) != "undetermined"
  {
    assert |"satisfied"| == 9 && |"not-satisfied"| == 13 && |"not-applicable"| == 14 && |"unassessed"| == 10
        && |"error"| == 5;
    assert |"undetermined"| == 12;
  }

  /** An undetermined control carries exactly the reason the evaluation recorded, and never the fallback text. */
  lemma ReasonExact(run: Run, baseline: seq<string>, registry: Registry, evs: seq<Evaluation>, catalog: Catalog,
                    estateTotal: nat, c: string)
    requires c in baseline && !Determined(evs, c)
    ensures var row, reasons := DirectRow(run, registry, evs, catalog, estateTotal, c),
        WithoutVerdict(baseline, registry, evs);
            c in reasons && row.reason == Some(ReasonText(reasons[c]))
                && row.reason != Some("no-determination-recorded")
  {
    DeterminedExact(evs, c);
    NoReasonIsTheFallback(WhyUndetermined(registry, evs, c));
  }

  lemma NoReasonIsTheFallback(r: Reason)
    ensures ReasonText(r) != "no-determination-recorded"
  {
    assert |"no-determination-recorded"| == 25;
    assert |ReasonText(r)| <= 24;
  }

  // ----- confidence -------------------------------------------------------------------------

  lemma {:induction false} WeakestExact(ds: seq<Evaluation>)
    ensures var w := Weakest(ds);
            && (w.None? <==> forall e :: e in ds ==> e.result.confidence.None?)
            && (w.Some? ==> exists e :: e in ds && e.result.confidence == w)
            && (w.Some? ==>
                  forall e :: e in ds && e.result.confidence.Some? ==>
                              e.result.confidence.value.Rank() <= w.value.Rank())
  {
    if ds != [] {
      var rest, last := ds[..|ds| - 1], ds[|ds| - 1];
      assert ds == rest + [last];
      WeakestExact(rest);
      assert last in ds;
      if Weakest(ds).Some? && last.result.confidence != Weakest(ds) {
        var e :| e in rest && e.result.confidence == Weakest(rest);
        assert e in ds;
      }
    }
  }

  /**
   Ceilings survive aggregation: over a whole run, the confidence a row shows is no stronger than the ceiling
   declared by any check that reached a verdict on the control and put a confidence on it.
   */
  lemma RowConfidenceUnderCeilings(registry: Registry, bundles: seq<FactBundle>, baseline: Option<seq<string>>,
                                   history: History,
                                   run: Evaluator, c: string, ev: Evaluation)
    requires ev in Determinations(RunAll(registry, bundles, baseline, history, run), c) && ev.result.confidence.Some?
    ensures var ds := Determinations(RunAll(registry, bundles, baseline, history, run), c);
            ConfidenceOf(ds).Rank() >= ev.check.confidence.Rank()
  {
    var evs := RunAll(registry, bundles, baseline, history, run);
    RunExact(registry, bundles, baseline, history, run, ev);
    var k, b :| k in registry && b in bundles && Applies(k, b, baseline) && ev == EvaluateCheck(k, b, history, run);
    CeilingHolds(k, b, history, run);
    WeakestExact(Determinations(evs, c));
  }

  /**
   Where a confidence is shown that is stronger than some contributing check declares: where such a check put no
   confidence on its verdict and every confidence on record is stronger than what it declares.
   */
  lemma CeilingExceededExact(ds: seq<Evaluation>)
    requires forall e :: e in ds && e.result.confidence.Some? ==>
               e.result.confidence.value.Rank() >= e.check.confidence.Rank()
    ensures (exists e :: e in ds && ConfidenceOf(ds).Rank() < e.check.confidence.Rank()) <==>
            exists e :: e in ds && e.result.confidence.None? && e.check.confidence != Direct
                        && forall f :: f in ds && f.result.confidence.Some? ==>
                             f.result.confidence.value.Rank() < e.check.confidence.Rank()
  {
    WeakestExact(ds);
  }

  /** Over a run no more is needed; without any confidence on record the row shows `direct`. */
  lemma DefaultConfidence(registry: Registry, bundles: seq<FactBundle>, baseline: Option<seq<string>>, history: History,
                          run: Evaluator, c: string)
    ensures var ds := Determinations(RunAll(registry, bundles, baseline, history, run), c);
            && ((forall e :: e in ds ==> e.result.confidence.None?) ==> ConfidenceOf(ds) == Direct)
            && ((exists e :: e in ds && ConfidenceOf(ds).Rank() < e.check.confidence.Rank()) <==>
                exists e :: e in ds && e.result.confidence.None? && e.check.confidence != Direct
                            && forall f :: f in ds && f.result.confidence.Some? ==>
                                 f.result.confidence.value.Rank() < e.check.confidence.Rank())
  {
    var evs := RunAll(registry, bundles, baseline, history, run);
    var ds := Determinations(evs, c);
    WeakestExact(ds);
    forall e | e in ds && e.result.confidence.Some?
      ensures e.result.confidence.value.Rank() >= e.check.confidence.Rank()
    {
      RunExact(registry, bundles, baseline, history, run, e);
      var k, b :| k in registry && b in bundles && Applies(k, b, baseline) && e == EvaluateCheck(k, b, history, run);
      CeilingHolds(k, b, history, run);
    }
    CeilingExceededExact(ds);
  }

  lemma OneEvaluation(check: Check, bundle: FactBundle, history: History, run: Evaluator)
    requires Applies(check, bundle, None)
    ensures RunAll([check], [bundle], None, history, run) == [EvaluateCheck(check, bundle, history, run)]
  {
    assert [check][..0] == [] && [bundle][..0] == [];
    assert Evaluations([check], bundle, None, history, run) == [] + [EvaluateCheck(check, bundle, history, run)];
    assert RunAll([check], [bundle], None, history, run) == [] + Evaluations([check], bundle, None, history, run);
  }

  lemma OneDetermination(ev: Evaluation, b: Binding)
    requires ev.check.controls == [b] && ev.Status().EmitsFinding()
    ensures Determinations([ev], b.controlId) == [ev]
  {
    assert [ev][..0] == [] && [b][..0] == [];
    assert Repeats(ev, [b], b.controlId) == [] + [ev];
    assert Contributing([ev], b.controlId) == [] + [ev];
    assert Concluded([ev]) == [] + [ev];
  }

  lemma NoConfidenceIsDirect(ev: Evaluation)
    requires ev.result.confidence.None?
    ensures ConfidenceOf([ev]) == Direct
  {
    WeakestExact([ev]);
  }

  /** A verdict of not applicable from a check of any lesser ceiling is shown as `direct`. */
  lemma DirectAboveCeiling(check: Check, b: Binding, bundle: FactBundle, history: History, run: Evaluator,
                           evidence: seq<string>)
    requires Applies(check, bundle, None) && GuardsPass(check, bundle, history) && check.controls == [b]
    requires run(check, bundle, history) == Returned(NotApplicableOn(evidence)) && check.confidence != Direct
    ensures var ds := Determinations(RunAll([check], [bundle], None, history, run), b.controlId);
            && ds == [EvaluateCheck(check, bundle, history, run)]
            && ConfidenceOf(ds) == Direct && ConfidenceOf(ds).Rank() < check.confidence.Rank()
  {
    var ev := EvaluateCheck(check, bundle, history, run);
    OneEvaluation(check, bundle, history, run);
    OneDetermination(ev, b);
    NoConfidenceIsDirect(ev);
  }

  /** For instance a check declared as partial evidence, on any subject. */
  lemma DirectExample(bundle: FactBundle, evidence: seq<string>) returns (check: Check, run: Evaluator)
    ensures check.confidence == Partial && check.Binds("ism-1")
    ensures ConfidenceOf(Determinations(RunAll([check], [bundle], None, History([]), run), "ism-1")) == Direct
  {
    var b := Binding("ism-1", "ism-1_smt");
    check := Check("check", "title", "common", [b], Partial, OneSubject, 24, 0, Automated, []);
    run := (c, f, h) => Returned(NotApplicableOn(evidence));
    assert b in check.controls;
    DirectAboveCeiling(check, b, bundle, History([]), run, evidence);
  }

  // ----- populations --------------------------------------------------------------------------

  lemma SubjectsAtMost(evs: seq<Evaluation>)
    ensures |SubjectsOf(evs)| <= |evs|
  {
    if evs != [] {
      var rest, last := evs[..|evs| - 1], evs[|evs| - 1];
      assert evs == rest + [last];
      SubjectsAtMost(rest);
      assert SubjectsOf(evs) == SubjectsOf(rest) + {last.subject.assetId} by {
        forall e | e in rest ensures e in evs {}
        assert last in evs;
      }
    }
  }

  lemma SubsetSize<T>(a: set<T>, b: set<T>)
    requires a <= b
    ensures |a| <= |b|
  {
    assert b == a + (b - a);
  }

  /** The figures of a finding add up, and a subject fails exactly when the verdict does. */
  lemma PopulationAddsUp(ds: seq<Evaluation>, estateTotal: nat)
    requires forall e :: e in ds ==> e.Status().EmitsFinding()
    ensures var p := PopulationOf(ds, estateTotal);
            && SubjectsOf(WithStatus(ds, NotSatisfied)) * NotApplicableSubjects(ds) == {}
            && p.failing + p.na <= p.assessed <= p.observations && p.assessed <= p.total && estateTotal <= p.total
            && (p.failing > 0 <==> AnyFailing(ds))
            && (AllNotApplicable(ds) <==> p.na == p.assessed)
  {
    var failing, na, all := SubjectsOf(WithStatus(ds, NotSatisfied)), NotApplicableSubjects(ds), SubjectsOf(ds);
    SubjectsAtMost(ds);
    FailingIsApplicable(ds);
    DisjointWithin(failing, na, all);
    FailingSubjects(ds);
    NotApplicableIsAll(ds);
  }

  lemma FailingIsApplicable(ds: seq<Evaluation>)
    ensures SubjectsOf(WithStatus(ds, NotSatisfied)) * NotApplicableSubjects(ds) == {}
    ensures SubjectsOf(WithStatus(ds, NotSatisfied)) <= SubjectsOf(ds) && NotApplicableSubjects(ds) <= SubjectsOf(ds)
  {
    forall s | s in SubjectsOf(WithStatus(ds, NotSatisfied)) ensures s !in NotApplicableSubjects(ds) {
      var e :| e in WithStatus(ds, NotSatisfied) && e.subject.assetId == s;
      assert e in ds && e.Status().NotSatisfied?;
    }
  }

  lemma DisjointWithin<T>(a: set<T>, b: set<T>, all: set<T>)
    requires a * b == {} && a <= all && b <= all
    ensures |a| + |b| <= |all|
  {
    assert |a + b| == |a| + |b|;
    SubsetSize(a + b, all);
  }

  lemma FailingSubjects(ds: seq<Evaluation>)
    ensures |SubjectsOf(WithStatus(ds, NotSatisfied))| > 0 <==> AnyFailing(ds)
  {
    var fs := WithStatus(ds, NotSatisfied);
    if AnyFailing(ds) {
      var e :| e in ds && e.Status().NotSatisfied?;
      assert e in fs && e.subject.assetId in SubjectsOf(fs);
    }
    if SubjectsOf(fs) != {} {
      var s :| s in SubjectsOf(fs);
      var e :| e in fs && e.subject.assetId == s;
    }
  }

  lemma NotApplicableIsAll(ds: seq<Evaluation>)
    ensures AllNotApplicable(ds) <==> |NotApplicableSubjects(ds)| == |SubjectsOf(ds)|
  {
    var na, all := NotApplicableSubjects(ds), SubjectsOf(ds);
    assert na <= all;
    if AllNotApplicable(ds) {
      assert all <= na;
      assert na == all;
    }
    if |na| == |all| {
      assert all == na + (all - na) && |all - na| == 0;
      forall e | e in ds ensures e.Status().NotApplicable? {
        assert e.subject.assetId in all && e.subject.assetId in na;
      }
    }
  }

  /** For a control judged from inside a population only, the estate's size plays no part. */
  lemma AggregateIgnoresEstate(ds: seq<Evaluation>, total: nat, other: nat)
    requires AggregateOnly(ds)
    ensures PopulationOf(ds, EstateFor(ds, total)) == PopulationOf(ds, EstateFor(ds, other))
    ensures PopulationOf(ds, EstateFor(ds, total)).total == |ds|
  {
    SubjectsAtMost(ds);
  }

  // ----- order ----------------------------------------------------------------------------------

  lemma ContributingNext(evs: seq<Evaluation>, ev: Evaluation, c: string)
    ensures Contributing(evs + [ev], c) == Contributing(evs, c) + Repeats(ev, ev.check.controls, c)
  {
    assert (evs + [ev])[..|evs|] == evs;
  }

  lemma {:induction false} ContributingAppend(a: seq<Evaluation>, b: seq<Evaluation>, c: string)
    ensures Contributing(a + b, c) == Contributing(a, c) + Contributing(b, c)
  {
    if b == [] {
      assert a + b == a;
    } else {
      var rest, last := b[..|b| - 1], b[|b| - 1];
      assert b == rest + [last] && a + b == (a + rest) + [last];
      ContributingAppend(a, rest, c);
      ContributingNext(a + rest, last, c);
      ContributingNext(rest, last, c);
      Joined(Contributing(a, c), Contributing(rest, c), Repeats(last, last.check.controls, c));
    }
  }

  lemma {:induction false} ConcludedAppend(a: seq<Evaluation>, b: seq<Evaluation>)
    ensures Concluded(a + b) == Concluded(a) + Concluded(b)
  {
    if b == [] {
      assert a + b == a;
    } else {
      assert (a + b)[..|a + b| - 1] == a + b[..|b| - 1];
      ConcludedAppend(a, b[..|b| - 1]);
    }
  }

  lemma DeterminationsAppend(a: seq<Evaluation>, b: seq<Evaluation>, c: string)
    ensures Determinations(a + b, c) == Determinations(a, c) + Determinations(b, c)
  {
    ContributingAppend(a, b, c);
    ConcludedAppend(Contributing(a, c), Contributing(b, c));
  }

  lemma DeterminationsMove(x: Evaluation, p: seq<Evaluation>, q: seq<Evaluation>, c: string)
    ensures multiset(Determinations(p + ([x] + q), c)) == multiset(Determinations([x], c))
        + multiset(Determinations(p + q, c))
  {
    DeterminationsAppend(p, [x] + q, c);
    DeterminationsAppend([x], q, c);
    DeterminationsAppend(p, q, c);
  }

  lemma Removed<T>(x: T, p: seq<T>, q: seq<T>, all: seq<T>)
    requires all == p + ([x] + q)
    ensures multiset(p + q) == multiset(all) - multiset{x}
  {
  }

  lemma {:induction false} DeterminationsPermute(a: seq<Evaluation>, b: seq<Evaluation>, c: string)
    requires multiset(a) == multiset(b)
    ensures multiset(Determinations(a, c)) == multiset(Determinations(b, c))
    decreases |a|
  {
    SameMembers(a, b);
    if a != [] {
      var x, rest := a[0], a[1..];
      assert x in b;
      var i :| 0 <= i < |b| && b[i] == x;
      var p, q := b[..i], b[i + 1..];
      assert a == [] + ([x] + rest) && b == p + ([x] + q) && [] + rest == rest;
      Removed(x, [], rest, a);
      Removed(x, p, q, b);
      DeterminationsPermute(rest, p + q, c);
      DeterminationsMove(x, [], rest, c);
      DeterminationsMove(x, p, q, c);
    }
  }

  /** Verdict, confidence and all five figures of a control do not depend on the order of the evaluations. */
  lemma OrderDoesNotMatter(a: seq<Evaluation>, b: seq<Evaluation>, c: string, estateTotal: nat)
    requires multiset(a) == multiset(b)
    ensures var ds, es := Determinations(a, c), Determinations(b, c);
            && (ds == [] <==> es == []) && Verdict(ds) == Verdict(es) && StateText(ds) == StateText(es)
            && ConfidenceOf(ds) == ConfidenceOf(es) && BasisText(ds) == BasisText(es)
            && PopulationOf(ds, EstateFor(ds, estateTotal)) == PopulationOf(es, EstateFor(es, estateTotal))
  {
    DeterminationsPermute(a, b, c);
    VerdictPermutes(Determinations(a, c), Determinations(b, c));
    PopulationPermutes(Determinations(a, c), Determinations(b, c), estateTotal);
  }

  lemma VerdictPermutes(ds: seq<Evaluation>, es: seq<Evaluation>)
    requires multiset(ds) == multiset(es)
    ensures (ds == [] <==> es == []) && Verdict(ds) == Verdict(es) && StateText(ds) == StateText(es)
    ensures ConfidenceOf(ds) == ConfidenceOf(es) && BasisText(ds) == BasisText(es)
  {
    SameMembers(ds, es);
    WeakestExact(ds);
    WeakestExact(es);
    assert AnyFailing(ds) == AnyFailing(es) && AllNotApplicable(ds) == AllNotApplicable(es);
    assert AggregateOnly(ds) == AggregateOnly(es);
    RanksDiffer();
  }

  lemma PopulationPermutes(ds: seq<Evaluation>, es: seq<Evaluation>, estateTotal: nat)
    requires multiset(ds) == multiset(es)
    ensures PopulationOf(ds, EstateFor(ds, estateTotal)) == PopulationOf(es, EstateFor(es, estateTotal))
  {
    SameMembers(ds, es);
    assert AggregateOnly(ds) == AggregateOnly(es);
    assert SubjectsOf(ds) == SubjectsOf(es) && NotApplicableSubjects(ds) == NotApplicableSubjects(es);
    assert SubjectsOf(WithStatus(ds, NotSatisfied)) == SubjectsOf(WithStatus(es, NotSatisfied)) by {
      assert forall e :: e in WithStatus(ds, NotSatisfied) <==> e in WithStatus(es, NotSatisfied);
    }
  }

  lemma RanksDiffer()
    ensures forall x: Confidence, y: Confidence :: x.Rank() == y.Rank() ==> x == y
  {
  }

  // ----- action items and observations ------------------------------------------------------------

  lemma {:induction false} PoamExact(run: Run, fs: seq<Finding>, item: PoamItem)
    ensures item in PoamItems(run, fs) <==> exists f :: f in fs && f.target.state == "not-satisfied"
                                                        && item == PoamItemOf(run, f)
  {
    if fs != [] {
      var rest, last := fs[..|fs| - 1], fs[|fs| - 1];
      assert fs == rest + [last];
      PoamExact(run, rest, item);
    }
  }

  lemma FindingState(run: Run, evs: seq<Evaluation>, catalog: Catalog, estateTotal: nat, c: string)
    requires WellFormed(catalog) && c in catalog && Determinations(evs, c) != []
    ensures var fs := FindingFor(run, c, evs, catalog, estateTotal);
            |fs| == 1 && fs[0].uuid == FindingUuid(run, c) && FirstWord(fs[0].title) == c
            && (fs[0].target.state == "not-satisfied" <==> AnyFailing(Determinations(evs, c)))
  {
    FindingReadsAs(run, evs, catalog, estateTotal, c);
    assert |"satisfied"| != |"not-satisfied"|;
  }

  lemma SameHead(k: string, c: string, tail: string)
    requires k + tail == c + tail
    ensures k == c
  {
    assert k == (k + tail)[..|k|] && c == (c + tail)[..|c|];
  }

  /** The open action item of a control, by its title and the finding it names. */
  ghost predicate IsItemOf(run: Run, item: PoamItem, c: string) {
    item.title == c + " not satisfied" && item.findings == [FindingUuid(run, c)]
  }

  lemma ItemOfFinding(run: Run, f: Finding, k: string, c: string)
    requires FirstWord(f.title) == k && f.uuid == FindingUuid(run, k)
    ensures IsItemOf(run, PoamItemOf(run, f), c) <==> k == c
  {
    if IsItemOf(run, PoamItemOf(run, f), c) {
      SameHead(k, c, " not satisfied");
    }
  }

  lemma MadeItem(run: Run, evs: seq<Evaluation>, catalog: Catalog, estateTotal: nat, k: string, c: string, f: Finding)
    requires WellFormed(catalog) && k in catalog && f in FindingFor(run, k, evs, catalog, estateTotal)
    ensures IsItemOf(run, PoamItemOf(run, f), c) <==> k == c
    ensures f.target.state == "not-satisfied" <==> AnyFailing(Determinations(evs, k))
  {
    FindingState(run, evs, catalog, estateTotal, k);
    ItemOfFinding(run, f, k, c);
  }

  lemma OpenItem(run: Run, controls: seq<string>, make: string -> seq<Finding>, k: string, f: Finding)
    requires k in controls && f in make(k) && f.target.state == "not-satisfied"
    ensures PoamItemOf(run, f) in PoamItems(run, Collect(controls, make))
  {
    CollectExact(controls, make, f);
    PoamExact(run, Collect(controls, make), PoamItemOf(run, f));
  }

  lemma ItemSource(run: Run, controls: seq<string>, make: string -> seq<Finding>, item: PoamItem)
    returns (k: string, f: Finding)
    requires item in PoamItems(run, Collect(controls, make))
    ensures k in controls && f in make(k) && f.target.state == "not-satisfied" && item == PoamItemOf(run, f)
  {
    PoamExact(run, Collect(controls, make), item);
    f :| f in Collect(controls, make) && f.target.state == "not-satisfied" && item == PoamItemOf(run, f);
    CollectExact(controls, make, f);
    k :| k in controls && f in make(k);
  }

  /** A control has an open action item, naming its finding, exactly when a determination on it failed. */
  lemma ActionItemExact(run: Run, controls: seq<string>, evs: seq<Evaluation>, catalog: Catalog, estateTotal: nat,
                        c: string)
    requires WellFormed(catalog) && (forall k :: k in controls ==> k in catalog) && c in controls
    ensures (exists item :: item in PlanItems(run, FindingsFor(run, controls, evs, catalog, estateTotal))
                            && IsItemOf(run, item, c))
            <==> AnyFailing(Determinations(evs, c))
  {
    PlanItemExact(run, FindingsFor(run, controls, evs, catalog, estateTotal), c);
    OpenItemExact(run, controls, evs, catalog, estateTotal, c);
  }

  /** The placeholder of an empty plan is nobody's item. */
  lemma PlanItemExact(run: Run, findings: seq<Finding>, c: string)
    ensures (exists item :: item in PlanItems(run, findings) && IsItemOf(run, item, c))
            <==> exists item :: item in PoamItems(run, findings) && IsItemOf(run, item, c)
  {
    assert NoOpenItems(run).findings == [];
  }

  lemma OpenItemExact(run: Run, controls: seq<string>, evs: seq<Evaluation>, catalog: Catalog, estateTotal: nat,
                      c: string)
    requires WellFormed(catalog) && (forall k :: k in controls ==> k in catalog) && c in controls
    ensures (exists item :: item in PoamItems(run, FindingsFor(run, controls, evs, catalog, estateTotal))
                            && IsItemOf(run, item, c))
            <==> AnyFailing(Determinations(evs, c))
  {
    var make := MakeFinding(run, evs, catalog, estateTotal);
    if AnyFailing(Determinations(evs, c)) {
      FindingState(run, evs, catalog, estateTotal, c);
      var f := make(c)[0];
      MadeItem(run, evs, catalog, estateTotal, c, c, f);
      OpenItem(run, controls, make, c, f);
    }
    if item :| item in PoamItems(run, Collect(controls, make)) && IsItemOf(run, item, c) {
      var k, f := ItemSource(run, controls, make, item);
      MadeItem(run, evs, catalog, estateTotal, k, c, f);
    }
  }

  lemma {:induction false} ObservationsExact(run: Run, evs: seq<Evaluation>, ev: Evaluation)
    requires ev in evs
    ensures exists o :: o in Observations(run, evs) && o.uuid == ObservationUuid(run, ev)
  {
    var rest, last := evs[..|evs| - 1], evs[|evs| - 1];
    assert evs == rest + [last];
    if ev == last {
      assert ObservationOf(run, last) in Observations(run, evs);
    } else {
      ObservationsExact(run, rest, ev);
      var o :| o in Observations(run, rest) && o.uuid == ObservationUuid(run, ev);
      assert o in Observations(run, evs);
    }
  }

  /** Every observation a finding relates to is in the same document. */
  lemma RelatedObservationsExist(run: Run, evs: seq<Evaluation>, catalog: Catalog, estateTotal: nat, c: string,
                                 uuid: string)
    requires c in catalog && Determinations(evs, c) != []
    requires uuid in FindingFor(run, c, evs, catalog, estateTotal)[0].observations
    ensures exists o :: o in Observations(run, evs) && o.uuid == uuid
  {
    var ds := Determinations(evs, c);
    var i :| 0 <= i < |ds| && ObservationUuids(run, ds)[i] == uuid;
    assert ds[i] in ds;
    ObservationsExact(run, evs, ds[i]);
  }

  // ----- counts -------------------------------------------------------------------------------------

  lemma {:induction false} FilterSplits(cs: seq<string>, keep: string -> bool, leave: string -> bool)
    requires forall c :: keep(c) == !leave(c)
    ensures multiset(Filter(cs, keep)) + multiset(Filter(cs, leave)) == multiset(cs)
  {
    if cs != [] {
      var rest, last := cs[..|cs| - 1], cs[|cs| - 1];
      assert cs == rest + [last];
      FilterSplits(rest, keep, leave);
      FilterNext(rest, last, keep);
      FilterNext(rest, last, leave);
      AddLast(rest, last, cs);
      OneOfThree(multiset(Filter(rest, keep)), multiset(Filter(rest, leave)), multiset{}, last, keep(last),
                 leave(last), false);
    }
  }

  function WithFinding(findings: seq<Finding>): string -> bool {
    c => c in TitleControls(findings)
  }

  /** Findings name exactly the controls that were determined. */
  lemma TitlesExact(run: Run, evs: seq<Evaluation>, catalog: Catalog, estateTotal: nat, c: string)
    requires WellFormed(catalog) && forall k :: k in BoundControls(evs) ==> k in catalog
    ensures c in TitleControls(FindingsFor(run, SortedKeys(BoundControls(evs)), evs, catalog, estateTotal)) <==>
        Determined(evs, c)
  {
    FindingsRead(run, SortedKeys(BoundControls(evs)), evs, catalog, estateTotal, c);
    DeterminedExact(evs, c);
    BoundExact(evs, c);
    if Determinations(evs, c) != [] {
      assert Determinations(evs, c)[0] in Contributing(evs, c);
    }
  }

  /** Of the baseline's controls, those with a finding and those counted as unassessed make up the whole. */
  lemma DeterminedAndUnassessed(run: Run, baseline: seq<string>, evs: seq<Evaluation>, registry: Registry,
                                catalog: Catalog,
                                populationTotal: Option<nat>)
    requires WellFormed(catalog) && KnownControls(baseline, evs, catalog)
    ensures var findings := ResultsOf(run, baseline, evs, registry, catalog, populationTotal).findings;
            && multiset(Filter(baseline, WithFinding(findings))) + multiset(Undetermined(baseline, findings))
                == multiset(baseline)
            && forall c :: c in Undetermined(baseline, findings) <==> c in WithoutVerdict(baseline, registry, evs)
  {
    var estateTotal := EstateTotal(evs, populationTotal);
    var findings := FindingsFor(run, SortedKeys(BoundControls(evs)), evs, catalog, estateTotal);
    FilterSplits(baseline, WithFinding(findings), WithoutFinding(findings));
    FilterExact(baseline, WithoutFinding(findings));
    forall c ensures c in TitleControls(findings) <==> Determined(evs, c) {
      TitlesExact(run, evs, catalog, estateTotal, c);
    }
  }

  ghost function Sum(m: map<string, nat>): nat
    decreases |m|
  {
    if m == map[] then 0
    else
      var k :| k in m;
      m[k] + Sum(m - {k})
  }

  lemma {:induction false} SumWithout(m: map<string, nat>, k: string)
    requires k in m
    ensures Sum(m) == m[k] + Sum(m - {k})
    decreases |m|
  {
    var j :| j in m && Sum(m) == m[j] + Sum(m - {j});
    if j != k {
      SumWithout(m - {j}, k);
      SumWithout(m - {k}, j);
      assert m - {j} - {k} == m - {k} - {j};
    }
  }

  lemma SumBump(m: map<string, nat>, k: string)
    ensures Sum(Bump(m, k)) == Sum(m) + 1
  {
    SumWithout(Bump(m, k), k);
    if k in m {
      SumWithout(m, k);
      assert Bump(m, k) - {k} == m - {k};
    } else {
      assert Bump(m, k) - {k} == m;
    }
  }

  /** Every row is counted once, by confidence when a verdict was reached and by reason otherwise. */
  lemma {:induction false} CountsCoverRows(rows: seq<ControlRow>)
    requires forall row :: row in rows && row.IsDetermined() ==> row.confidence.Some? && row.confidence.value != ""
    ensures Sum(ConfidenceCounts(rows)) + Sum(ReasonCounts(rows)) == |rows|
  {
    if rows != [] {
      var rest, last := rows[..|rows| - 1], rows[|rows| - 1];
      assert rows == rest + [last];
      CountsCoverRows(rest);
      assert last in rows;
      if last.IsDetermined() {
        SumBump(ConfidenceCounts(rest), last.confidence.value);
      } else {
        SumBump(ReasonCounts(rest), ReasonKey(last));
      }
    }
  }

  /**
   A direct row with a verdict always shows a confidence; the rows filed under no reason are the not-applicable
   ones.
   */
  lemma DirectRowsCount(run: Run, registry: Registry, evs: seq<Evaluation>, catalog: Catalog, estateTotal: nat,
                        c: string)
    ensures var row := DirectRow(run, registry, evs, catalog, estateTotal, c);
            && (row.IsDetermined() ==> row.confidence.Some? && row.confidence.value != "")
            && (!row.IsDetermined() ==> (ReasonKey(row) == "unknown" <==> row.status == "not-applicable"))
  {
    var ds := Determinations(evs, c);
    StatusTextsDiffer();
    if ds != [] {
      ConfidenceIsShown(ConfidenceOf(ds));
      VerdictTexts(Verdict(ds));
    } else {
      ReasonIsNotUnknown(WhyUndetermined(registry, evs, c));
      assert |"not-applicable"| == 14 && |"undetermined"| == 12 && |"satisfied"| == 9 && |"not-satisfied"| == 13;
    }
  }

  lemma ConfidenceIsShown(c: Confidence)
    ensures ConfidenceText(c) != ""
  {
  }

  lemma VerdictTexts(s: Status)
    requires s.EmitsFinding()
    ensures StatusText(s) == "satisfied" || StatusText(s) == "not-satisfied" || StatusText(s) == "not-applicable"
    ensures StatusText(s) == "not-applicable" <==> s.NotApplicable?
  {
    assert |"not-applicable"| == 14 && |"satisfied"| == 9 && |"not-satisfied"| == 13;
  }

  lemma ReasonIsNotUnknown(r: Reason)
    ensures ReasonText(r) != "unknown" && ReasonText(r) != ""
  {
    assert |"unknown"| == 7;
    assert |ReasonText(r)| > 7;
  }

  // ----- the report as a whole ----------------------------------------------------------------------------

  /** An undetermined row carries the reason the evaluation recorded. */
  ghost predicate TellsReason(row: ControlRow, baseline: seq<string>, registry: Registry, evs: seq<Evaluation>) {
    !Determined(evs, row.controlId) ==>
      && row.controlId in WithoutVerdict(baseline, registry, evs)
      && row.reason == Some(ReasonText(WithoutVerdict(baseline, registry, evs)[row.controlId]))
  }

  /** One row for every control of the baseline, each telling what the evaluations say of it. */
  ghost predicate Tells(rows: seq<ControlRow>, baseline: seq<string>, registry: Registry, evs: seq<Evaluation>) {
    && |rows| == |baseline| && RowsSorted(rows)
    && (forall i, j :: 0 <= i < j < |rows| ==> rows[i].controlId != rows[j].controlId)
    && (forall c :: c in baseline <==> exists row :: row in rows && row.controlId == c)
    && (forall row :: row in rows ==> TellsStatus(row, evs, row.controlId) && TellsReason(row, baseline, registry, evs))
  }

  lemma RowTells(run: Run, baseline: seq<string>, evs: seq<Evaluation>, registry: Registry, catalog: Catalog,
                 estateTotal: nat,
                 row: ControlRow)
    requires row.controlId in baseline && row == DirectRow(run, registry, evs, catalog, estateTotal, row.controlId)
    ensures TellsStatus(row, evs, row.controlId) && TellsReason(row, baseline, registry, evs)
  {
    StatusExact(run, registry, evs, catalog, estateTotal, row.controlId);
    if !Determined(evs, row.controlId) {
      ReasonExact(run, baseline, registry, evs, catalog, estateTotal, row.controlId);
    }
  }

  lemma RowsTell(run: Run, baseline: seq<string>, evs: seq<Evaluation>, registry: Registry, catalog: Catalog,
                 estateTotal: nat,
                 rows: seq<ControlRow>)
    requires RowsSorted(rows) && RowsFor(rows, baseline, MakeDirectRow(run, registry, evs, catalog, estateTotal))
    ensures Tells(rows, baseline, registry, evs)
  {
    forall row | row in rows ensures TellsStatus(row, evs, row.controlId) && TellsReason(row, baseline, registry, evs) {
      RowTells(run, baseline, evs, registry, catalog, estateTotal, row);
    }
  }

  /**
   The report read from a run's two documents: exactly one row for every control of a baseline without repeats, in
   order, with the status its evaluations call for and, where there is none, the reason recorded.
   */
  lemma DocumentsTell(run: Run, baseline: seq<string>, evs: seq<Evaluation>, registry: Registry, catalog: Catalog,
                      populationTotal: Option<nat>)
    requires WellFormed(catalog) && KnownControls(baseline, evs, catalog) && Distinct(baseline)
    ensures var read := ReportOf(PlanOf(baseline, registry, catalog),
                                 ResultsOf(run, baseline, evs, registry, catalog, populationTotal), catalog);
            read.Ok? && Tells(read.value.rows, baseline, registry, evs)
  {
    DocumentsRoundTrip(run, baseline, evs, registry, catalog, populationTotal);
    OneRowPerControl(run, baseline, evs, registry, catalog, populationTotal);
    RowsTell(run, baseline, evs, registry, catalog, EstateTotal(evs, populationTotal),
             ReportRows(run, baseline, evs, registry, catalog, populationTotal));
  }
}
