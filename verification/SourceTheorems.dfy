/** How a report is read from any two documents, the tool's own or not. */
module SourceTheorems {
  import opened Text
  import opened Oscal
  import opened Emit
  import opened Report

  // ----- reasons on observations ----------------------------------------------------------

  /** The control a piece of evidence links to; nothing when it links to none. */
  function LinkedControl(e: Evidence): string {
    ControlOfStatement(StripHash(if e.href.Some? then e.href.value else ""))
  }

  /** How many of the links lead to the control. */
  function LinksTo(links: seq<Evidence>, control: string): nat {
    if links == [] then 0
    else LinksTo(links[..|links| - 1], control) + if LinkedControl(links[|links| - 1]) == control then 1 else 0
  }

  /** The reason an observation gives, empty when it gives none. */
  function ReasonGiven(o: Observation): string {
    GetOr(OwnProps(o.props), "unassessed-reason", "")
  }

  /** How many links of observations with a reason lead to the control. */
  function Observed(os: seq<Observation>, control: string): nat {
    if os == [] then 0
    else Observed(os[..|os| - 1], control)
         + if ReasonGiven(os[|os| - 1]) != "" then LinksTo(os[|os| - 1].evidence, control) else 0
  }

  /** What is known of a control, after so many further links with this reason. */
  function After(seen: Option<Seen>, links: nat, reason: string): Option<Seen> {
    if links == 0 then seen
    else if seen.None? then Some(Seen(reason, links))
    else Some(Seen(seen.value.reason, seen.value.subjects + links))
  }

  lemma {:induction false} LinksAccount(m: map<string, Seen>, links: seq<Evidence>, reason: string, control: string)
    requires control != ""
    ensures Find(WithLinks(m, links, reason), control) == After(Find(m, control), LinksTo(links, control), reason)
  {
    if links != [] {
      LinksAccount(m, links[..|links| - 1], reason, control);
    }
  }

  /** The observation is the first that gives the control a reason. */
  ghost predicate GivesFirst(os: seq<Observation>, i: int, control: string) {
    && 0 <= i < |os| && ReasonGiven(os[i]) != "" && LinksTo(os[i].evidence, control) > 0
    && forall j :: 0 <= j < i ==> ReasonGiven(os[j]) == "" || LinksTo(os[j].evidence, control) == 0
  }

  lemma GivesFirstLonger(rest: seq<Observation>, last: Observation, control: string)
    ensures forall i :: GivesFirst(rest, i, control) ==> GivesFirst(rest + [last], i, control)
  {
  }

  lemma {:induction false} NothingObserved(os: seq<Observation>, control: string)
    requires Observed(os, control) == 0
    ensures forall i :: 0 <= i < |os| ==> ReasonGiven(os[i]) == "" || LinksTo(os[i].evidence, control) == 0
  {
    if os != [] {
      NothingObserved(os[..|os| - 1], control);
      assert forall i :: 0 <= i < |os| - 1 ==> os[..|os| - 1][i] == os[i];
    }
  }

  lemma ObservedNext(rest: seq<Observation>, last: Observation, control: string)
    requires control != ""
    ensures Find(ObservedReasons(rest + [last]), control)
         == if ReasonGiven(last) == "" then Find(ObservedReasons(rest), control)
            else After(Find(ObservedReasons(rest), control), LinksTo(last.evidence, control), ReasonGiven(last))
    ensures Observed(rest + [last], control)
         == Observed(rest, control) + if ReasonGiven(last) != "" then LinksTo(last.evidence, control) else 0
  {
    assert (rest + [last])[..|rest|] == rest;
    LinksAccount(ObservedReasons(rest), last.evidence, ReasonGiven(last), control);
  }

  /** A control is counted once for every link of an observation with a reason, under the first reason given for it. */
  lemma {:induction false} ObservedExact(os: seq<Observation>, control: string)
    requires control != ""
    ensures var seen := Find(ObservedReasons(os), control);
            && (seen.None? <==> Observed(os, control) == 0)
            && (seen.Some? ==> seen.value.subjects == Observed(os, control)
                               && exists i :: GivesFirst(os, i, control) && seen.value.reason == ReasonGiven(os[i]))
  {
    if os != [] {
      var rest, last := os[..|os| - 1], os[|os| - 1];
      assert os == rest + [last];
      ObservedExact(rest, control);
      ObservedNext(rest, last, control);
      GivesFirstLonger(rest, last, control);
      if Observed(rest, control) == 0 && Observed(os, control) > 0 {
        NothingObserved(rest, control);
        assert GivesFirst(os, |rest|, control);
      }
    }
  }

  // ----- reasons of rows -------------------------------------------------------------------

  function FirstNonEmpty(texts: seq<string>, otherwise: string): string {
    if texts == [] then otherwise else if texts[0] != "" then texts[0] else FirstNonEmpty(texts[1..], otherwise)
  }

  /** What a source says, empty when it says nothing. */
  function Said(m: map<string, string>, control: string): string {
    if control in m then m[control] else ""
  }

  /**
   A control with a finding is reported by it alone. Any other is undetermined, with the first reason given by the
   observations, the results or the plan, in this order.
   */
  lemma RowFrom(s: Sources, catalog: Catalog, control: string)
    ensures var row := RowOf(s, catalog, control);
            if control in s.findings then
              row.status == GetOr(s.findings[control], "assessment-status", "undetermined") && row.reason.None?
            else
              && row.status == "undetermined" && row.confidence.None? && row.population == map[]
              && row.attestation == Find(s.attestations, control)
              && row.reason == Some(FirstNonEmpty([if control in s.observed then s.observed[control].reason else "",
                                                   Said(s.emitted, control), Said(s.planned, control)],
                                                  "no-determination-recorded"))
  {
    FirstOfThree(if control in s.observed then s.observed[control].reason else "", Said(s.emitted, control),
                 Said(s.planned, control), "no-determination-recorded");
  }

  lemma FirstOfThree(a: string, b: string, c: string, otherwise: string)
    ensures FirstNonEmpty([a, b, c], otherwise)
         == if a != "" then a else if b != "" then b else if c != "" then c else otherwise
  {
    assert [a, b, c][1..] == [b, c] && [b, c][1..] == [c] && [c][1..] == [];
    assert FirstNonEmpty([c], otherwise) == if c != "" then c else otherwise;
    assert FirstNonEmpty([b, c], otherwise) == if b != "" then b else FirstNonEmpty([c], otherwise);
  }

  // ----- counts of rows -----------------------------------------------------------------------

  function HowMany(rows: seq<ControlRow>, test: ControlRow -> bool): nat {
    if rows == [] then 0
    else HowMany(rows[..|rows| - 1], test) + if test(rows[|rows| - 1]) then 1 else 0
  }

  /** The row reports a verdict with this confidence. */
  function HasConfidence(confidence: string): ControlRow -> bool {
    (row: ControlRow) => (row.status == "satisfied" || row.status == "not-satisfied")
                         && row.confidence == Some(confidence)
  }

  /** The row reports no verdict, for this reason; one without a reason counts as unknown. */
  function HasReason(reason: string): ControlRow -> bool {
    (row: ControlRow) => row.status != "satisfied" && row.status != "not-satisfied"
                         && reason == if row.reason.None? || row.reason.value == "" then "unknown"
                                      else row.reason.value
  }

  lemma {:induction false} ConfidencesCounted(rows: seq<ControlRow>, confidence: string)
    requires confidence != ""
    ensures Find(ConfidenceCounts(rows), confidence)
         == if HowMany(rows, HasConfidence(confidence)) == 0 then None
            else Some(HowMany(rows, HasConfidence(confidence)))
  {
    if rows != [] {
      ConfidencesCounted(rows[..|rows| - 1], confidence);
    }
  }

  lemma {:induction false} ReasonsCounted(rows: seq<ControlRow>, reason: string)
    ensures Find(ReasonCounts(rows), reason)
         == if HowMany(rows, HasReason(reason)) == 0 then None else Some(HowMany(rows, HasReason(reason)))
  {
    if rows != [] {
      ReasonsCounted(rows[..|rows| - 1], reason);
    }
  }
}
