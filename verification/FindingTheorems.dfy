/** What single observations and findings say. */
module FindingTheorems {
  import opened Text
  import opened Json
  import opened Contract
  import opened Registry
  import opened Evaluate
  import opened Oscal
  import opened Emit
  import opened Report
  import opened RoundTrip
  import opened ReportTheorems

  // ----- observations -----------------------------------------------------------------------

  /** The words for one result, the ones without a verdict included. */
  ghost predicate SaysResult(s: Status, text: string) {
    match s
    case Satisfied => text == "satisfied"
    case NotSatisfied => text == "not-satisfied"
    case NotApplicable => text == "not-applicable"
    case Unassessed => text == "unassessed"
    case Error => text == "error"
  }

  lemma ResultSays(s: Status)
    ensures SaysResult(s, StatusText(s))
  {
  }

  /** An optional property at the end of a list that does not have it yet. */
  lemma MayAdd(props: seq<Prop>, name: string, value: Option<string>)
    requires Find(OwnProps(props), name) == None
    ensures var more := if value.Some? then [Own(name, value.value)] else [];
            && Find(OwnProps(props + more), name) == value
            && forall k :: k != name ==> Find(OwnProps(props + more), k) == Find(OwnProps(props), k)
  {
    if value.Some? {
      OwnPropsAdd(props, name, value.value);
    } else {
      assert props + [] == props;
    }
  }

  function ConfidenceProp(ev: Evaluation): Option<string> {
    if ev.result.confidence.Some? then Some(ConfidenceText(ev.result.confidence.value)) else None
  }

  function ReasonProp(ev: Evaluation): Option<string> {
    if ev.result.reason.Some? then Some(ReasonText(ev.result.reason.value)) else None
  }

  lemma MustAdd(props: seq<Prop>, name: string, value: string)
    ensures Find(OwnProps(props + [Own(name, value)]), name) == Some(value)
    ensures forall k :: k != name ==> Find(OwnProps(props + [Own(name, value)]), k) == Find(OwnProps(props), k)
  {
    OwnPropsAdd(props, name, value);
  }

  /** Three properties and up to two more, of different names, read back one by one. */
  lemma FiveProps(names: seq<string>, a: string, b: string, c: string, d: Option<string>, e: Option<string>,
                  props: seq<Prop>)
    requires |names| == 5 && forall i, j :: 0 <= i < j < 5 ==> names[i] != names[j]
    requires props == [Own(names[0], a), Own(names[1], b), Own(names[2], c)]
                      + (if d.Some? then [Own(names[3], d.value)] else [])
                      + (if e.Some? then [Own(names[4], e.value)] else [])
    ensures var m := OwnProps(props);
            && Find(m, names[0]) == Some(a) && Find(m, names[1]) == Some(b) && Find(m, names[2]) == Some(c)
            && Find(m, names[3]) == d && Find(m, names[4]) == e
  {
    var p1 := [] + [Own(names[0], a)];
    var p2 := p1 + [Own(names[1], b)];
    var p3 := p2 + [Own(names[2], c)];
    var p4 := p3 + (if d.Some? then [Own(names[3], d.value)] else []);
    MustAdd([], names[0], a);
    MustAdd(p1, names[1], b);
    MustAdd(p2, names[2], c);
    assert p3 == [Own(names[0], a), Own(names[1], b), Own(names[2], c)];
    assert OwnProps([]) == map[];
    assert Find(OwnProps(p3), names[3]) == None && Find(OwnProps(p3), names[4]) == None;
    MayAdd(p3, names[3], d);
    MayAdd(p4, names[4], e);
    assert props == p4 + (if e.Some? then [Own(names[4], e.value)] else []);
  }

  lemma NamesDiffer(names: seq<string>)
    requires names == ["check-id", "assessment-status", "catalog-version", "confidence", "unassessed-reason"]
    ensures forall i, j :: 0 <= i < j < 5 ==> names[i] != names[j]
  {
    assert |names[0]| == 8 && |names[1]| == 17 && |names[2]| == 15 && |names[3]| == 10 && |names[4]| == 17;
    assert names[1][0] == 'a' && names[4][0] == 'u';
  }

  lemma PropsOf(run: Run, ev: Evaluation, names: seq<string>)
    requires names == ["check-id", "assessment-status", "catalog-version", "confidence", "unassessed-reason"]
    ensures ObservationOf(run, ev).props
         == [Own(names[0], ev.check.id), Own(names[1], StatusText(ev.Status())), Own(names[2], run.version)]
            + (if ConfidenceProp(ev).Some? then [Own(names[3], ConfidenceProp(ev).value)] else [])
            + (if ReasonProp(ev).Some? then [Own(names[4], ReasonProp(ev).value)] else [])
  {
  }

  /** An observation says which check made it, with what result, and its confidence and reason if there are any. */
  lemma ObservationSays(run: Run, ev: Evaluation)
    ensures var m := OwnProps(ObservationOf(run, ev).props);
            && Find(m, "check-id") == Some(ev.check.id)
            && Find(m, "assessment-status").Some? && SaysResult(ev.Status(), Find(m, "assessment-status").value)
            && Find(m, "confidence") == ConfidenceProp(ev) && Find(m, "unassessed-reason") == ReasonProp(ev)
  {
    var names := ["check-id", "assessment-status", "catalog-version", "confidence", "unassessed-reason"];
    ResultSays(ev.Status());
    NamesDiffer(names);
    PropsOf(run, ev, names);
    FiveProps(names, ev.check.id, StatusText(ev.Status()), run.version, ConfidenceProp(ev), ReasonProp(ev),
              ObservationOf(run, ev).props);
  }

  // ----- findings ----------------------------------------------------------------------------

  lemma UuidsExact(run: Run, ds: seq<Evaluation>, uuid: string)
    ensures uuid in ObservationUuids(run, ds) <==> exists e :: e in ds && ObservationUuid(run, e) == uuid
  {
    if e :| e in ds && ObservationUuid(run, e) == uuid {
      var i :| 0 <= i < |ds| && ds[i] == e;
      assert ObservationUuids(run, ds)[i] == uuid;
    }
  }

  /** A finding relates to exactly the observations of the determinations on its control. */
  lemma RelatesExactly(run: Run, evs: seq<Evaluation>, catalog: Catalog, estateTotal: nat, c: string, uuid: string)
    requires c in catalog && Determinations(evs, c) != []
    ensures uuid in FindingFor(run, c, evs, catalog, estateTotal)[0].observations <==>
            exists e :: Bears(evs, c, e) && ObservationUuid(run, e) == uuid
  {
    var ds := Determinations(evs, c);
    assert forall e :: e in ds <==> Bears(evs, c, e);
    UuidsExact(run, ds, uuid);
  }

  /** A finding's target: the control's statement, failed by one failure, and marked when the control never applied. */
  lemma TargetTells(run: Run, evs: seq<Evaluation>, catalog: Catalog, estateTotal: nat, c: string)
    requires c in catalog && Determinations(evs, c) != []
    ensures var t := FindingFor(run, c, evs, catalog, estateTotal)[0].target;
            && t.targetId == catalog[c].statementId
            && t.state == (if exists e :: Bears(evs, c, e) && e.Status().NotSatisfied? then "not-satisfied"
                           else "satisfied")
            && (t.notApplicable <==> forall e :: Bears(evs, c, e) ==> e.Status().NotApplicable?)
  {
    assert forall e :: e in Determinations(evs, c) <==> Bears(evs, c, e);
  }

  /** What a subject-based finding is out of: the estate as given, but never less than what was assessed. */
  lemma TotalExact(evs: seq<Evaluation>, c: string, populationTotal: Option<nat>)
    requires exists e :: Bears(evs, c, e) && !e.check.scope.Aggregate?
    ensures var ds, estateTotal := Determinations(evs, c), EstateTotal(evs, populationTotal);
            var p := PopulationOf(ds, EstateFor(ds, estateTotal));
            && BasisText(ds) == "subject"
            && p.total == (if populationTotal.None? then |set e | e in evs :: e.subject.assetId|
                           else if populationTotal.value >= p.assessed then populationTotal.value else p.assessed)
  {
    var ds := Determinations(evs, c);
    assert forall e :: e in ds <==> Bears(evs, c, e);
    assert SubjectsOf(ds) <= SubjectsOf(evs);
    SubsetSize(SubjectsOf(ds), SubjectsOf(evs));
  }

  lemma SubsetSize(a: set<string>, b: set<string>)
    requires a <= b
    ensures |a| <= |b|
  {
    assert b == a + (b - a);
  }

  /** A finding from aggregate checks alone is out of its own determinations, and says so. */
  lemma AggregateTotal(evs: seq<Evaluation>, c: string, estateTotal: nat)
    requires (exists e :: Bears(evs, c, e)) && forall e :: Bears(evs, c, e) ==> e.check.scope.Aggregate?
    ensures var ds := Determinations(evs, c);
            && BasisText(ds) == "aggregate-subject"
            && PopulationOf(ds, EstateFor(ds, estateTotal)).total == |ds|
  {
    var ds := Determinations(evs, c);
    assert forall e :: e in ds <==> Bears(evs, c, e);
    AggregateIgnoresEstate(ds, estateTotal, estateTotal);
  }
}
