/** What the plan says of the controls of a baseline. */
module PlanTheorems {
  import opened Text
  import opened Registry
  import opened Evaluate
  import opened Oscal
  import opened Emit
  import opened Report

  /** Some automated check, or some attested entry, is bound to the control. */
  ghost predicate IsAnswered(registry: Registry, control: string, automated: bool) {
    exists c :: c in registry && c.IsAutomated() == automated && c.Binds(control)
  }

  lemma AnsweredExact(registry: Registry, control: string)
    ensures control in AutomatedControls(registry) <==> IsAnswered(registry, control, true)
    ensures control in AttestedControls(registry) <==> IsAnswered(registry, control, false)
  {
    if c :| c in registry && c.Binds(control) {
      var b :| b in c.controls && b.controlId == control;
    }
    if c :| c in registry && c.IsAutomated() && c.Binds(control) {
      var b :| b in c.controls && b.controlId == control;
    }
    if c :| c in registry && !c.IsAutomated() && c.Binds(control) {
      var b :| b in c.controls && b.controlId == control;
    }
  }

  lemma {:induction false} WithReasonExact(m: map<string, string>, ids: seq<string>, reason: string, c: string)
    ensures Find(WithReason(m, ids, reason), c) == if c in ids then Some(reason) else Find(m, c)
  {
    if ids != [] {
      assert ids == ids[..|ids| - 1] + [ids[|ids| - 1]];
      WithReasonExact(m, ids[..|ids| - 1], reason, c);
    }
  }

  lemma TwoProps(first: string, a: string, second: string, b: string)
    ensures AllProps([Own(first, a), Own(second, b)]) == map[first := a][second := b]
  {
    var p := [Own(first, a)];
    assert [Own(first, a), Own(second, b)][..1] == p && p[..0] == [];
    assert AllProps(p) == map[first := a];
  }

  lemma ReasonsGiven(s: Selection)
    ensures s.props == [] ==> SelectionReason(s) == None
    ensures s.props == ATTESTED_PROPS ==> SelectionReason(s) == Some("requires-attestation")
    ensures s.props == UNASSESSED_PROPS ==> SelectionReason(s) == Some("not-implemented")
  {
    TwoProps("assessment-status", "requires-attestation", "assessability", "attested");
    TwoProps("assessment-status", "unassessed", "unassessed-reason", "not-implemented");
    assert |"assessment-status"| == |"unassessed-reason"| && "assessment-status"[0] != "unassessed-reason"[0];
  }

  lemma IdsAre(cs: seq<string>, catalog: Catalog)
    requires forall c :: c in cs ==> c in catalog
    ensures IdsOf(IncludesOf(cs, catalog)) == cs
  {
  }

  /** The reasons of a list with one more selection. */
  lemma NextSelection(selections: seq<Selection>, s: Selection)
    ensures PlanReasons(selections + [s])
         == if SelectionReason(s).Some? then WithReason(PlanReasons(selections), IdsOf(s.includes),
                                                        SelectionReason(s).value)
            else PlanReasons(selections)
  {
    assert (selections + [s])[..|selections|] == selections;
  }

  /** A selection that may be left out gives its reason to the controls that pass, and to no other. */
  lemma MayGive(selections: seq<Selection>, props: seq<Prop>, baseline: seq<string>, keep: string -> bool,
                catalog: Catalog, reason: string, c: string)
    requires (forall k :: k in baseline ==> k in catalog)
    requires forall s: Selection :: s.props == props ==> SelectionReason(s) == Some(reason)
    ensures Find(PlanReasons(selections + SelectedIfAny(props, baseline, keep, catalog)), c)
         == if c in baseline && keep(c) then Some(reason) else Find(PlanReasons(selections), c)
  {
    FilterExact(baseline, keep);
    var passing := Filter(baseline, keep);
    if passing == [] {
      assert selections + [] == selections;
    } else {
      var s := Selected(props, baseline, keep, catalog);
      NextSelection(selections, s);
      IdsAre(passing, catalog);
      WithReasonExact(PlanReasons(selections), IdsOf(s.includes), reason, c);
    }
  }

  /**
   The plan gives a control of the baseline a reason exactly when no tool answers it: that it needs attesting when a
   person does, and that nothing implements it otherwise.
   */
  lemma PlanGivesReasons(baseline: seq<string>, registry: Registry, catalog: Catalog, c: string)
    requires forall k :: k in baseline ==> k in catalog
    ensures Find(PlanReasons(Reviewed(baseline, registry, catalog)), c)
         == if c !in baseline || IsAnswered(registry, c, true) then None
            else if IsAnswered(registry, c, false) then Some("requires-attestation")
            else Some("not-implemented")
  {
    var first := [Selected([], baseline, HasCheck(registry), catalog)];
    var second := first + SelectedIfAny(ATTESTED_PROPS, baseline, OnlyAttested(registry), catalog);
    AnsweredExact(registry, c);
    forall s: Selection
      ensures s.props == [] ==> SelectionReason(s) == None
      ensures s.props == ATTESTED_PROPS ==> SelectionReason(s) == Some("requires-attestation")
      ensures s.props == UNASSESSED_PROPS ==> SelectionReason(s) == Some("not-implemented")
    {
      ReasonsGiven(s);
    }
    NextSelection([], first[0]);
    assert [] + first == first;
    MayGive(first, ATTESTED_PROPS, baseline, OnlyAttested(registry), catalog, "requires-attestation", c);
    MayGive(second, UNASSESSED_PROPS, baseline, HasNothing(registry), catalog, "not-implemented", c);
  }

  /** The results review the whole baseline, in its order. */
  lemma ResultsReviewBaseline(run: Run, baseline: seq<string>, evs: seq<Evaluation>, registry: Registry,
                              catalog: Catalog, populationTotal: Option<nat>)
    requires KnownControls(baseline, evs, catalog)
    ensures ReviewedIds(ResultsOf(run, baseline, evs, registry, catalog, populationTotal).reviewed) == baseline
  {
    var s := Selection([], IncludesOf(baseline, catalog));
    IdsAre(baseline, catalog);
    assert ReviewedIds([s]) == ReviewedIds([]) + IdsOf(s.includes) by {
      assert [s][..0] == [];
    }
  }
}
