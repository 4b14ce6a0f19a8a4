/** Reading a plan and a results document back into one row per control. */
module Report {
  import opened Text
  import opened Lists
  import opened Json
  import opened Oscal
  import opened Order
  import opened Emit

  /** Where a human answer is held, as far as the plan says. */
  datatype Detail = Detail(source: string, owner: string, renewalDays: string, whyNotObservable: string, title: string)

  datatype ControlRow = ControlRow(
    controlId: string, statement: string, status: string, confidence: Option<string>, reason: Option<string>,
    population: map<string, string>, attestation: Option<Detail>)
  {
    predicate IsDetermined() {
      status == "satisfied" || status == "not-satisfied"
    }
  }

  datatype Report = Report(
    systemId: string, baseline: string, catalogVersion: string, runId: string,
    subjectsAssessed: nat, subjectsInScope: nat, rows: seq<ControlRow>)

  // ----- the plan ---------------------------------------------------------------------

  function DetailOf(a: Activity): Detail {
    var props := OwnProps(a.props);
    Detail(GetOr(props, "attestation-source", ""), GetOr(props, "attestation-owner", ""),
           GetOr(props, "attestation-renewal-days", ""), GetOr(props, "why-not-observable", ""), a.title)
  }

  predicate IsAttestation(a: Activity) {
    GetOr(OwnProps(a.props), "assessability", "") == "attested"
  }

  function WithDetail(m: map<string, Detail>, includes: seq<Include>, d: Detail): map<string, Detail> {
    if includes == [] then m
    else WithDetail(m, includes[..|includes| - 1], d)[includes[|includes| - 1].controlId := d]
  }

  function WithDetails(m: map<string, Detail>, selections: seq<Selection>, d: Detail): map<string, Detail> {
    if selections == [] then m
    else WithDetail(WithDetails(m, selections[..|selections| - 1], d), selections[|selections| - 1].includes, d)
  }

  function AttestationsOf(activities: seq<Activity>): map<string, Detail> {
    if activities == [] then map[]
    else
      var a, m := activities[|activities| - 1], AttestationsOf(activities[..|activities| - 1]);
      if IsAttestation(a) then WithDetails(m, a.related, DetailOf(a)) else m
  }

  method ReadAttestations(activities: seq<Activity>) returns (m: map<string, Detail>)
    ensures m == AttestationsOf(activities)
  {
    m := map[];
    for i := 0 to |activities|
      invariant m == AttestationsOf(activities[..i])
    {
      assert activities[..i + 1][..i] == activities[..i];
      if !IsAttestation(activities[i]) { continue; }
      m := WithDetails(m, activities[i].related, DetailOf(activities[i]));
    }
    assert activities[..|activities|] == activities;
  }

  function IdsOf(includes: seq<Include>): (r: seq<string>)
    ensures |r| == |includes| && forall i :: 0 <= i < |includes| ==> r[i] == includes[i].controlId
  {
    if includes == [] then [] else IdsOf(includes[..|includes| - 1]) + [includes[|includes| - 1].controlId]
  }

  function ReviewedIds(selections: seq<Selection>): seq<string> {
    if selections == [] then []
    else ReviewedIds(selections[..|selections| - 1]) + IdsOf(selections[|selections| - 1].includes)
  }

  /** The reason a selection gives for all of its controls, if it gives one. */
  function SelectionReason(s: Selection): Option<string> {
    var props := AllProps(s.props);
    if "unassessed-reason" in props then Some(props["unassessed-reason"])
    else if GetOr(props, "assessment-status", "") == "requires-attestation" then Some("requires-attestation")
    else None
  }

  function WithReason(m: map<string, string>, ids: seq<string>, reason: string): map<string, string> {
    if ids == [] then m else WithReason(m, ids[..|ids| - 1], reason)[ids[|ids| - 1] := reason]
  }

  function PlanReasons(selections: seq<Selection>): map<string, string> {
    if selections == [] then map[]
    else
      var s, m := selections[|selections| - 1], PlanReasons(selections[..|selections| - 1]);
      if SelectionReason(s).Some? then WithReason(m, IdsOf(s.includes), SelectionReason(s).value) else m
  }

  method ReadReviewed(selections: seq<Selection>) returns (reviewed: seq<string>, reasons: map<string, string>)
    ensures reviewed == ReviewedIds(selections) && reasons == PlanReasons(selections)
  {
    reviewed, reasons := [], map[];
    for i := 0 to |selections|
      invariant reviewed == ReviewedIds(selections[..i]) && reasons == PlanReasons(selections[..i])
    {
      assert selections[..i + 1][..i] == selections[..i];
      var ids, reason := IdsOf(selections[i].includes), SelectionReason(selections[i]);
      reviewed := reviewed + ids;
      if reason.Some? {
        reasons := WithReason(reasons, ids, reason.value);
      }
    }
    assert selections[..|selections|] == selections;
  }

  // ----- the results --------------------------------------------------------------------

  predicate IsReasonProp(p: Prop) {
    p.name == "undetermined" && p.ns == Some(NS)
  }

  function WithReasonProp(m: map<string, string>, p: Prop): map<string, string> {
    var (control, reason) := Partition(p.value, '=');
    if IsReasonProp(p) && control != "" && reason != "" then m[control := reason] else m
  }

  function EmittedReasons(props: seq<Prop>): map<string, string> {
    if props == [] then map[] else WithReasonProp(EmittedReasons(props[..|props| - 1]), props[|props| - 1])
  }

  method ReadEmittedReasons(props: seq<Prop>) returns (m: map<string, string>)
    ensures m == EmittedReasons(props)
  {
    m := map[];
    for i := 0 to |props|
      invariant m == EmittedReasons(props[..i])
    {
      assert props[..i + 1][..i] == props[..i];
      if !IsReasonProp(props[i]) { continue; }
      var (control, reason) := Partition(props[i].value, '=');
      if control != "" && reason != "" {
        m := m[control := reason];
      }
    }
    assert props[..|props|] == props;
  }

  function FindingsByControl(findings: seq<Finding>): map<string, map<string, string>> {
    if findings == [] then map[]
    else
      var f := findings[|findings| - 1];
      FindingsByControl(findings[..|findings| - 1])[ControlOfStatement(f.target.targetId) := OwnProps(f.props)]
  }

  method ReadFindings(findings: seq<Finding>) returns (m: map<string, map<string, string>>)
    ensures m == FindingsByControl(findings)
  {
    m := map[];
    for i := 0 to |findings|
      invariant m == FindingsByControl(findings[..i])
    {
      assert findings[..i + 1][..i] == findings[..i];
      m := m[ControlOfStatement(findings[i].target.targetId) := OwnProps(findings[i].props)];
    }
    assert findings[..|findings|] == findings;
  }

  function StripHash(s: string): string {
    if s != "" && s[0] == '#' then StripHash(s[1..]) else s
  }

  /** A reason first seen for a control, with the number of links that repeat it. */
  datatype Seen = Seen(reason: string, subjects: nat)

  function WithLinks(m: map<string, Seen>, links: seq<Evidence>, reason: string): map<string, Seen> {
    if links == [] then m
    else
      var before, link := WithLinks(m, links[..|links| - 1], reason), links[|links| - 1];
      var control := ControlOfStatement(StripHash(if link.href.Some? then link.href.value else ""));
      if control == "" then before
      else
        var seen := if control in before then before[control] else Seen(reason, 0);
        before[control := seen.(subjects := seen.subjects + 1)]
  }

  function ObservedReasons(observations: seq<Observation>): map<string, Seen> {
    if observations == [] then map[]
    else
      var o, m := observations[|observations| - 1], ObservedReasons(observations[..|observations| - 1]);
      var reason := GetOr(OwnProps(o.props), "unassessed-reason", "");
      if reason != "" then WithLinks(m, o.evidence, reason) else m
  }

  method ReadObservedReasons(observations: seq<Observation>) returns (m: map<string, Seen>)
    ensures m == ObservedReasons(observations)
  {
    m := map[];
    for i := 0 to |observations|
      invariant m == ObservedReasons(observations[..i])
    {
      assert observations[..i + 1][..i] == observations[..i];
      var reason := GetOr(OwnProps(observations[i].props), "unassessed-reason", "");
      if reason == "" { continue; }
      m := WithLinks(m, observations[i].evidence, reason);
    }
    assert observations[..|observations|] == observations;
  }

  // ----- rows --------------------------------------------------------------------------------

  /** Everything the rows are built from. */
  datatype Sources = Sources(
    findings: map<string, map<string, string>>, observed: map<string, Seen>, emitted: map<string, string>,
    planned: map<string, string>, attestations: map<string, Detail>)

  function PopulationFigures(props: map<string, string>): map<string, string> {
    map k | k in props && "population-" <= k :: props[k]
  }

  /** An empty text is no reason: the next source is asked. */
  function ReasonFor(s: Sources, control: string): string {
    if control in s.observed && s.observed[control].reason != "" then s.observed[control].reason
    else if control in s.emitted && s.emitted[control] != "" then s.emitted[control]
    else if control in s.planned && s.planned[control] != "" then s.planned[control]
    else "no-determination-recorded"
  }

  function Find<T>(m: map<string, T>, key: string): Option<T> {
    if key in m then Some(m[key]) else None
  }

  function RowOf(s: Sources, catalog: Catalog, control: string): ControlRow {
    var statement := StatementOfControl(catalog, control);
    if control in s.findings then
      var props := s.findings[control];
      ControlRow(control, statement, GetOr(props, "assessment-status", "undetermined"), Find(props, "confidence"), None,
                 PopulationFigures(props), None)
    else
      ControlRow(control, statement, "undetermined", None, Some(ReasonFor(s, control)), map[],
                 Find(s.attestations, control))
  }

  /** One row for each control, in order. */
  function EachRow(controls: seq<string>, row: string -> ControlRow): (r: seq<ControlRow>)
    ensures |r| == |controls| && forall i :: 0 <= i < |controls| ==> r[i] == row(controls[i])
  {
    if controls == [] then [] else EachRow(controls[..|controls| - 1], row) + [row(controls[|controls| - 1])]
  }

  function MakeRow(s: Sources, catalog: Catalog): string -> ControlRow {
    c => RowOf(s, catalog, c)
  }

  function RowsOf(s: Sources, catalog: Catalog, controls: seq<string>): seq<ControlRow> {
    EachRow(controls, MakeRow(s, catalog))
  }

  function StatementOfControl(catalog: Catalog, control: string): string {
    if control in catalog then catalog[control].statement else ""
  }

  /** The order of a report's rows. */
  function ByControlId(): (ControlRow, ControlRow) -> bool {
    (a: ControlRow, b: ControlRow) => LessEq(a.controlId, b.controlId)
  }

  /** `sorted(rows, key=control_id)`. */
  function SortRows(rows: seq<ControlRow>): seq<ControlRow> {
    Sort(rows, ByControlId())
  }

  function SourcesOf(plan: Plan, results: Results): Sources {
    Sources(FindingsByControl(results.findings), ObservedReasons(results.observations), EmittedReasons(results.props),
            PlanReasons(plan.reviewed), AttestationsOf(plan.activities))
  }

  /** `int(props.get(key, 0))`; a text that is no number raises. */
  function ReadCount(props: map<string, string>, key: string): Option<nat> {
    if key !in props then Some(0)
    else if AllDigits(props[key]) then Some(NatValue(props[key]))
    else None
  }

  /** The report two documents amount to. */
  function ReportOf(plan: Plan, results: Results, catalog: Catalog): Result<Report, string> {
    var props := OwnProps(results.props);
    var assessed, inScope := ReadCount(props, "subjects-assessed"), ReadCount(props, "subjects-in-scope");
    if assessed.None? || inScope.None? then Err("not a number")
    else Ok(Report(
      GetOr(props, "system-id", ""), GetOr(props, "baseline", ""), GetOr(props, "catalog-version", ""),
      GetOr(props, "run-id", ""), assessed.value, inScope.value,
      SortRows(RowsOf(SourcesOf(plan, results), catalog, ReviewedIds(plan.reviewed)))))
  }

  /** The row loop of `build`. */
  method BuildRows(s: Sources, catalog: Catalog, reviewed: seq<string>) returns (rows: seq<ControlRow>)
    ensures rows == RowsOf(s, catalog, reviewed)
  {
    rows := [];
    for i := 0 to |reviewed|
      invariant rows == EachRow(reviewed[..i], MakeRow(s, catalog))
    {
      assert reviewed[..i + 1][..i] == reviewed[..i];
      rows := rows + [RowOf(s, catalog, reviewed[i])];
    }
    assert reviewed[..|reviewed|] == reviewed;
  }

  /** `build`: the two documents and the catalog, read into a report. */
  method Build(plan: Plan, results: Results, catalog: Catalog) returns (report: Result<Report, string>)
    ensures report == ReportOf(plan, results, catalog)
  {
    var attestations := ReadAttestations(plan.activities);
    var reviewed, planned := ReadReviewed(plan.reviewed);
    var emitted := ReadEmittedReasons(results.props);
    var findings := ReadFindings(results.findings);
    var observed := ReadObservedReasons(results.observations);
    var s := Sources(findings, observed, emitted, planned, attestations);
    var rows := BuildRows(s, catalog, reviewed);
    var props := OwnProps(results.props);
    var assessed, inScope := ReadCount(props, "subjects-assessed"), ReadCount(props, "subjects-in-scope");
    if assessed.None? || inScope.None? { return Err("not a number"); }
    return Ok(Report(GetOr(props, "system-id", ""), GetOr(props, "baseline", ""), GetOr(props, "catalog-version", ""),
                     GetOr(props, "run-id", ""), assessed.value, inScope.value, SortRows(rows)));
  }

  // ----- counts ----------------------------------------------------------------------------

  function Bump(m: map<string, nat>, key: string): map<string, nat> {
    m[key := (if key in m then m[key] else 0) + 1]
  }

  function ConfidenceCounts(rows: seq<ControlRow>): map<string, nat> {
    if rows == [] then map[]
    else
      var row, m := rows[|rows| - 1], ConfidenceCounts(rows[..|rows| - 1]);
      if row.IsDetermined() && row.confidence.Some? && row.confidence.value != "" then Bump(m, row.confidence.value)
          else m
  }

  function ReasonKey(row: ControlRow): string {
    if row.reason.Some? && row.reason.value != "" then row.reason.value else "unknown"
  }

  function ReasonCounts(rows: seq<ControlRow>): map<string, nat> {
    if rows == [] then map[]
    else
      var row, m := rows[|rows| - 1], ReasonCounts(rows[..|rows| - 1]);
      if row.IsDetermined() then m else Bump(m, ReasonKey(row))
  }

  /** `confidence_counts` and `reason_counts`. */
  method CountRows(rows: seq<ControlRow>) returns (confidences: map<string, nat>, reasons: map<string, nat>)
    ensures confidences == ConfidenceCounts(rows) && reasons == ReasonCounts(rows)
  {
    confidences, reasons := map[], map[];
    for i := 0 to |rows|
      invariant confidences == ConfidenceCounts(rows[..i]) && reasons == ReasonCounts(rows[..i])
    {
      assert rows[..i + 1][..i] == rows[..i];
      if rows[i].IsDetermined() {
        if rows[i].confidence.Some? && rows[i].confidence.value != "" {
          confidences := Bump(confidences, rows[i].confidence.value);
        }
      } else {
        reasons := Bump(reasons, ReasonKey(rows[i]));
      }
    }
    assert rows[..|rows|] == rows;
  }
}
